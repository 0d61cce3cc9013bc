# Contract-tracking dashboard: the data pipeline, in Dafny

This project models the data pipeline of a dashboard that follows the tasks
and subtasks of a school-maintenance contract, exported from an issue tracker
as CSV. The pipeline has these stages:

- **Decoding.** Each parsed CSV record (a `map` from header to cell text) is
  decoded into a row. Money columns become integer cents (`toCents`), and the
  free-text status becomes one of "Pendente", "Em andamento" or "Concluído"
  (`normalizeStatus`).
- **Filtering.** The rows are filtered by category, school, status and a
  free-text query. The option lists of the category and school selects are
  built by `uniqSorted`.
- **Aggregates** over the filtered rows:
  - the four KPI cards;
  - the deliverables table, where subtasks are joined to their parent task
    and each task gets a completion ratio and a value-weighted estimate;
  - the task table, sorted by category, school and key;
  - the four charts: status counts, clamped balance, per-category sums and
    the ten schools with the largest balance.
- **The older single-page version** (`legacy/app.js`). It repeats the same
  logic. Its own parts are modelled separately:
  - the decoder that drops the discipline column, the filter that trims and
    lowercases the query, and the status chart's `Map`-based counting; each
    of these is proved to agree with the new code;
  - HTML escaping, which is proved safe and to round-trip;
  - the rule that keeps a select's choice while it is still offered, or
    resets it.
- **Around the pipeline:**
  - the access-key gate in front of the `/api/s3/` routes;
  - the admin-key check of the login route;
  - the post-processing of the bucket listing: CSV files only, newest first.

How the source's entities and operations are represented:

- Money is `int` cents.
- Percentages are exact `real`s.
- pt-BR `localeCompare` is a parameter `collate`, read as "`localeCompare(a, b) <= 0`".
  Lemmas about order assume that `collate` is a total preorder.
- `toLowerCase` is a parameter `lower`.
- `Array.prototype.sort` is a stable insertion sort. It is given as the
  function `Sorting.SortBy` and as the in-place array method
  `Sorting.SortInPlace`, which is proved to compute that function.
- The `for` and `forEach` loops that fill a JavaScript `Map` are modelled
  as methods with loop invariants. A `Map` is a `seq` of keys in insertion
  order beside a `map` of values.
- The legacy page's global `rawRows` and its two selects are the fields of
  the class `Legacy.Page`.

Where the legacy page repeats the new code's logic, one definition models
both, and its row below cites the new code. This covers `toCents`
(`legacy/app.js:30-51`), `normalizeStatus` (53-60) and `uniqSorted` (72-77).
It also covers the calculations of `renderKPIs` (232-240),
`renderTasksTable` (251-264), `renderEntregaveis` (283-337) and
`renderCharts` (508-551).

Two behaviours of the code worth knowing:

- `Math.round` rounds halves towards +∞: -0.5 becomes 0, not -1.
- The new filter does not trim the query; the legacy filter does
  (`legacy/app.js:203`).

Modules: `Seqs` (Option, filter, sums, grouping), `Text` (JavaScript white
space, `trim`, substring search), `Sorting`, `Money`, `Status`, `Helpers`
(row type, column names, `uniqSorted`), `Dashboard`, `Kpi`, `Deliverables`,
`Charts`, `TasksTable`, `Legacy`, `Access`, `S3List`.

## Model

| member | source | states |
|---|---|---|
| Money.ToCents | src/utils/dashboard-helpers.ts:6-24 | `null`/`undefined` and empty or all-white-space text give 0 |
| Money.RoundCents | src/utils/dashboard-helpers.ts:23 | the result is the integer r with r <= 100n + 1/2 < r + 1 for the exact value n (`Math.round`, halves up) |
| Money.RemoveSpaces | src/utils/dashboard-helpers.ts:12 | no white-space character (U+00A0 included) is left, and the text does not grow |
| Money.ReplaceChar | src/utils/dashboard-helpers.ts:18-19 | `replaceAll` of one character: same length, each occurrence replaced, every other character kept |
| Money.Disambiguate | src/utils/dashboard-helpers.ts:15-19 | after the separator rewrite no comma is left |
| Money.CurrencyPrefixIgnored | src/utils/dashboard-helpers.ts:11 | an "R$" prefix does not change the value |
| Money.SpacesIgnored | src/utils/dashboard-helpers.ts:12 | removing every white-space character from text without "R" does not change the value |
| Money.DotsAreThousandsWithComma | src/utils/dashboard-helpers.ts:18 | with both marks present, the dots are dropped and the comma is the decimal mark |
| Money.CommaIsDecimalMark | src/utils/dashboard-helpers.ts:19 | a lone comma reads exactly like a decimal point |
| Money.DotIsDecimalPoint | src/utils/dashboard-helpers.ts:21-23 | "whole.frac" gives the rounded cents of the exact decimal whole.frac |
| Money.IntegerIsReais | src/utils/dashboard-helpers.ts:21-23 | a plain digit string gives 100 times its value |
| Money.SeveralDotsIsZero | src/utils/dashboard-helpers.ts:21-22 | digits with two dots and no comma are not a number, so the result is 0 |
| Money.CleanNumberless | src/utils/dashboard-helpers.ts:21-22 | clean text that `Number` rejects gives 0, never an error |
| Money.FixtureDotsWithoutComma | src/utils/dashboard-helpers.ts:21-22 | "1.234.567" gives 0 |
| Money.FixtureGrouped | legacy/app.js:93 | "5.368,12" gives 536812 |
| Money.FixtureCommaRoundsHalfUp | legacy/app.js:94 | "6009,557" gives 600956 |
| Money.FixtureDecimalPoint | legacy/app.js:95 | "6009.55" gives 600955 |
| Money.FixtureCurrency | legacy/app.js:92-99 | "R$" followed by a space or by U+00A0, then "5.368,12", gives 536812 |
| Money.SelfTests | legacy/app.js:90-108 | every case of the self-test table gives its expected cents |
| Status.Lookup | src/utils/dashboard-helpers.ts:29-31 | a found status is paired with the label in the table; nothing is found exactly when no entry has that label |
| Status.NormalizeByTable | src/utils/dashboard-helpers.ts:26-33 | a label of the table, after trimming, gives its status |
| Status.NormalizeUnknown | src/utils/dashboard-helpers.ts:32 | any other label gives the trimmed input unchanged |
| Status.NormalizeBlank | src/utils/dashboard-helpers.ts:27-28 | the result is "" exactly when the input is all white space |
| Status.NormalizeRange | src/utils/dashboard-helpers.ts:26-33 | the result is one of the three statuses, "", or the trimmed input |
| Status.PendingIsNoLabel | src/utils/dashboard-helpers.ts:29 | "Pendente" is not itself a label of the table |
| Status.StatusFixed | src/utils/dashboard-helpers.ts:29-31 | each of the three statuses normalises to itself |
| Status.NormalizeIgnoresTrim | src/utils/dashboard-helpers.ts:27 | trimming before normalising changes nothing |
| Status.NormalizeIdempotent | src/utils/dashboard-helpers.ts:26-33 | normalising twice is normalising once |
| Helpers.UniqSortedMembers | src/utils/dashboard-helpers.ts:35-40 | a value is offered exactly when it is the trim of some present, non-blank entry |
| Helpers.UniqSortedShape | src/utils/dashboard-helpers.ts:35-40 | the options have no repeats and no blank entries, are trimmed, and are sorted by the collation |
| Helpers.Tasks | src/components/KPIContainer.tsx:9 | `filter(r => r.tipo === "Tarefa")` keeps only tasks |
| Helpers.SumBalance | src/components/KPIContainer.tsx:14 | the summed balance is the contractual total minus the measured total |
| Dashboard.Cell | src/components/Dashboard.tsx:59 | a cell is present exactly when the record has the column |
| Dashboard.Field | src/components/Dashboard.tsx:59-66 | `(r[col] \|\| "").trim()` is trimmed and is "" for a missing column |
| Dashboard.DecodeAll | src/components/Dashboard.tsx:58 | one row per record, in the same order |
| Dashboard.DecodeTrimmed | src/components/Dashboard.tsx:59-69 | every text field of a decoded row is trimmed |
| Dashboard.DecodeMissing | src/components/Dashboard.tsx:59-69 | a missing column gives "" for text and 0 for money |
| Dashboard.DecodeStatus | src/components/Dashboard.tsx:62-63 | `statusNorm` is `normalizeStatus(statusRaw)`, and "" when the column is missing |
| Dashboard.KeepsIff | src/components/Dashboard.tsx:79-88 | a row is kept exactly when it meets every non-empty exact criterion and, for a non-empty query, lower(query) occurs in lower(haystack) |
| Dashboard.NoCriteriaKeepsAll | src/components/Dashboard.tsx:79-89 | with all criteria empty the rows come back unchanged |
| Dashboard.FilterRowsShape | src/components/Dashboard.tsx:80-82 | the result is an order-preserving subsequence, and each kept row meets the exact criteria |
| Dashboard.FilterRowsIdempotent | src/components/Dashboard.tsx:78-90 | filtering twice with the same criteria is filtering once |
| Dashboard.CategoriesOffered | src/components/Dashboard.tsx:93 | over decoded rows, a category is offered exactly when it is non-empty and some row has it |
| Dashboard.SchoolsOffered | src/components/Dashboard.tsx:94 | the same for schools |
| Kpi.MeasuredPct | src/components/KPIContainer.tsx:16 | 0 when the contractual total is not positive; otherwise pct · total = 100 · measured |
| Kpi.ComputeKpis | src/components/KPIContainer.tsx:9-16 | concluded tasks <= tasks <= rows, and pct is 0 when the contractual total is not positive |
| Kpi.NonTaskIgnored | src/components/KPIContainer.tsx:9-11 | inserting a non-task row anywhere changes no KPI |
| Kpi.SaldoOnlyConcluded | src/components/KPIContainer.tsx:13-14 | the balance is the sum of (contractual - measured) over concluded tasks only |
| Kpi.AllConcludedSaldo | src/components/KPIContainer.tsx:10-14 | when every task is concluded, the balance is the contractual total minus the measured total |
| Kpi.SaldoMayBeNegative | src/components/KPIContainer.tsx:14 | a concluded task measured above its contract makes the balance negative |
| Kpi.TwoTaskScenario | src/components/KPIContainer.tsx:10-14 | tasks (100000, 50000, done) and (200000, 0, pending) give 300000, 50000, a balance of 50000, two tasks, one concluded, and a measured share of 50/3 % |
| Deliverables.GroupByParent | src/components/EntregaveisTable.tsx:19-25 | the loop leaves each parent key mapped to exactly its subtasks, in order; keys without subtasks are absent |
| Deliverables.PushGroups | src/components/EntregaveisTable.tsx:21-24 | one `push` keeps the grouping exact for the subtasks seen so far |
| Deliverables.ChildOfParent | src/components/EntregaveisTable.tsx:21-22 | a subtask is grouped under k exactly when k is non-empty and is its `paiKey`, or its own key when `paiKey` is empty |
| Deliverables.LookupIsChildren | src/components/EntregaveisTable.tsx:28 | `subByParent.get(t.key) \|\| []` is the task's subtasks |
| Deliverables.ProgressFromGrouping | src/components/EntregaveisTable.tsx:27-31 | the rows built from the `Map` equal the rows built from the subtasks directly |
| Deliverables.ProgressOf | src/components/EntregaveisTable.tsx:28-30 | `total` is the number of subtasks and `concl` is at most `total` |
| Deliverables.Pct | src/components/EntregaveisTable.tsx:31 | 0 when `total` is 0; otherwise pct · total = 100 · concl, within [0, 100] |
| Deliverables.RowFacts | src/components/EntregaveisTable.tsx:27-43 | each row has its task's key, `total` = its subtasks, `concl` <= `total`, `total` = 0 for an empty key, pct in [0, 100] |
| Deliverables.RowsSortedStable | src/components/EntregaveisTable.tsx:45 | the rows are a permutation of the task rows, sorted by `pct`, with ties in task order |
| Deliverables.TotalsBound | src/components/EntregaveisTable.tsx:47-48 | `totalEnt` and `conclEnt` are the sums over the rows, and `conclEnt` <= `totalEnt` |
| Deliverables.Deliverables | src/components/EntregaveisTable.tsx:47-58 | `pctEnt` · `totalEnt` = 100 · `conclEnt` and `pctFin` · `totalContratual` = 100 · `estimate` for positive totals; each is 0 otherwise |
| Deliverables.EstimateTotal | src/components/EntregaveisTable.tsx:51-56 | the estimate is the sum of the per-task estimates in task order, and the contract total is the sum over the tasks |
| Deliverables.EstimateWithinContract | src/components/EntregaveisTable.tsx:51-56 | with no negative contract value, 0 <= estimate <= contract total |
| Deliverables.RoundRatio | src/components/EntregaveisTable.tsx:55 | `Math.round(n / d)`: the integer r with r <= n/d + 1/2 < r + 1 |
| Deliverables.EstimateBounds | src/components/EntregaveisTable.tsx:53-56 | the estimate is 0 without subtasks, the contract value when all are done, and within [0, contract] for a non-negative contract |
| Deliverables.ComputeDeliverables | src/components/EntregaveisTable.tsx:16-58 | the component's loop, in-place sort and reductions give exactly `Deliverables(data)` |
| Charts.OnlyTasksCount | src/components/DashboardCharts.tsx:49 | only tasks feed the charts: dropping the other rows changes nothing |
| Charts.StatusPartition | src/components/DashboardCharts.tsx:52-53 | the three counts plus the tasks with any other status add up to the number of tasks |
| Charts.FinanceSaldo | src/components/DashboardCharts.tsx:65-67 | the balance is never negative, is at least contractual - measured, and is either 0 or the summed balance |
| Charts.CatKey | src/components/DashboardCharts.tsx:82 | the group key is never empty |
| Charts.CatAddSummed | src/components/DashboardCharts.tsx:82-86 | one step of the loop keeps `byCat` equal to the per-category sums of the tasks seen |
| Charts.RollupCategories | src/components/DashboardCharts.tsx:80-87 | `byCat` has each category once, in first-seen order, with its contractual and measured sums |
| Charts.CatLabelsShape | src/components/DashboardCharts.tsx:89 | the labels have no repeats and are sorted, and a label is present exactly when some task has that group key |
| Charts.CategoryBarsSum | src/components/DashboardCharts.tsx:93-94 | the category bars add up to the contractual and measured totals |
| Charts.CatValues | src/components/DashboardCharts.tsx:93-94 | the values read from `byCat` for the sorted labels are the per-category sums |
| Charts.SchoolKey | src/components/DashboardCharts.tsx:101 | the school key is never empty |
| Charts.SchoolAddSummed | src/components/DashboardCharts.tsx:101-103 | one `set` keeps `byEsc` equal to the per-school balances of the tasks seen |
| Charts.RollupSchools | src/components/DashboardCharts.tsx:99-104 | `byEsc` has each school once with the summed balance of its tasks |
| Charts.EntryValue | src/components/DashboardCharts.tsx:106 | each entry pairs a school with its summed balance |
| Charts.TopSchoolsOrdered | src/components/DashboardCharts.tsx:106-108 | min(10, number of schools) entries, in non-increasing balance, each with its school's summed balance |
| Charts.TopSchoolsDominate | src/components/DashboardCharts.tsx:106-108 | no school left out has a larger balance than a school shown |
| Charts.TopSchoolsStable | src/components/DashboardCharts.tsx:107 | schools with equal balances keep their first-seen order |
| Charts.ComputeCharts | src/components/DashboardCharts.tsx:49-108 | the component's loops, sorts and reductions give exactly `ChartsOf(data)` |
| TasksTable.ByCategorySchoolKeyTotalPreorder | src/components/TasksTable.tsx:18-22 | the three-key comparator is a total preorder when the collation is |
| TasksTable.RenderTasks | src/components/TasksTable.tsx:16-22 | the filtered copy sorted in place gives exactly `TableOf(data)` |
| TasksTable.TableIsPermutation | src/components/TasksTable.tsx:16 | the lines are a permutation of the tasks, and the count shown is their number |
| TasksTable.TableOrder | src/components/TasksTable.tsx:18-22 | ordered by category; ties by school; ties by key |
| TasksTable.TableStable | src/components/TasksTable.tsx:18-22 | tasks equal on all three keys keep their order |
| TasksTable.LineOf | src/components/TasksTable.tsx:50-52 | a balance is present exactly for concluded tasks; it is contractual - measured, not clamped |
| TasksTable.OrDash | src/components/TasksTable.tsx:58-59 | an empty category or school is shown as "—" |
| Sorting.SortInPlace | src/components/TasksTable.tsx:18-22 | the in-place sort leaves the array holding `SortBy` of its old contents |
| Sorting.SortBySorted | src/components/EntregaveisTable.tsx:45 | for a total preorder the sort's result is ordered |
| Sorting.SortByStable | src/components/EntregaveisTable.tsx:45 | elements that compare equal keep their input order |
| Sorting.SortedCopy | src/components/DashboardCharts.tsx:89 | sorting a fresh array gives `SortBy` of the sequence |
| Legacy.EscapeChar | legacy/app.js:63-69 | other characters are kept; each of & < > " ' becomes an entity that starts with & and ends with ; |
| Legacy.EscapeHtml | legacy/app.js:63 | `null`/`undefined` give "" |
| Legacy.EscapeSafe | legacy/app.js:63-69 | the output holds no raw < > " ' |
| Legacy.EscapePlain | legacy/app.js:63 | text without special characters is unchanged |
| Legacy.EscapeRoundTrip | legacy/app.js:62-70 | decoding the five entities gives the original text back |
| Legacy.LegacyDecodeAgrees | legacy/app.js:136-157 | the legacy decoder equals the new one except for the discipline column, which it does not read |
| Legacy.LegacyFilterAgrees | legacy/app.js:198-219 | the legacy filter is the new filter applied to the trimmed query |
| Legacy.KeepSelection | legacy/app.js:194-195 | the previous choice is kept exactly when it is still offered (or was ""), otherwise it becomes "" |
| Legacy.LegacyStatusCounts | legacy/app.js:511-515 | counting with a `Map` seeded with the three statuses gives the same counts as the new chart |
| Legacy.Page.constructor | legacy/app.js:113 | the page starts with no rows, no options and no selection |
| Legacy.Page.ParseCsvText | legacy/app.js:132-170 | `rawRows` becomes the decoded records, the options are rebuilt and the selections kept or reset |
| Legacy.Page.HydrateFilters | legacy/app.js:181-196 | the options are `uniqSorted` of the rows, and each selection follows the keep-or-reset rule |
| Legacy.Page.Filtered | legacy/app.js:207-219 | the rows shown are `applyFilters` over `rawRows` with the page's selections |
| Access.Middleware | src/middleware.ts:4-31 | non-S3 paths pass; upload paths pass exactly with the admin key; other S3 paths pass exactly with the admin or the read-only key; no header never passes |
| Access.UploadAccessIsStrongest | src/middleware.ts:12-26 | a request admitted to upload is admitted on every path |
| Access.VerifyAdmin | src/app/api/auth/verify/route.ts:5-12 | a missing or empty header is rejected; success exactly for a non-empty header equal to the admin key |
| Access.VerifiedKeyPasses | src/middleware.ts:12-26 | a key the login accepts passes the gate on every path |
| Access.EmptyKeyDiffers | src/app/api/auth/verify/route.ts:8 | with an admin key of "", an empty header passes the gate but not the login |
| S3List.List | src/app/api/s3/list/route.ts:8-26 | a missing or empty bucket name is an error; otherwise no more files than objects, and no objects give no files |
| S3List.ListedAreCsv | src/app/api/s3/list/route.ts:19-25 | the files are exactly the ".csv" objects, each once, with key, time and size unchanged |
| S3List.ListedKeysEndInCsv | src/app/api/s3/list/route.ts:20 | every listed key is present and ends in ".csv" |
| S3List.NewestFirst | src/app/api/s3/list/route.ts:26 | newest first, a missing time counting as 0; equal times keep the listing's order |

## Left out

- CSV tokenising (Papa.parse) is not modelled: the model starts from parsed records.
- React, JSX, the DOM, `fetch`, `FileReader`, local storage, and the Chart.js and element wiring are not modelled. Neither are the upload and content routes, which are plumbing around the storage service.
- The storage-service call in the listing route, its `catch` path (HTTP 500), and the `catch` path of the login route are not modelled. The listing's `Contents` is a parameter.
- `moneyBR` and the `toFixed` display formatting are not modelled.
- Money.ToCents: `Number` is modelled for an optional sign, digits and at most one "." only. JavaScript also reads exponent, hexadecimal, octal and binary forms; the model gives 0 for these.
- Money.ToCents: values are exact decimals. The binary floating point of `n * 100` can round differently at .5 boundaries: JavaScript gives 100 for "1.005", exact arithmetic gives 101.
- Money.ToCents: the range of doubles is not modelled, for `legacy/app.js:30-51` as well. Above about 1.8e308, `Number` gives `Infinity` and JavaScript returns 0. From about 1.8e306, `Math.round(n * 100)` is `Infinity` and JavaScript returns that, and it then flows into every sum. Above 2^53 cents JavaScript rounds. The model returns the exact integer in all three cases.
- Money.ToCents: no lemma states the value of a negative amount, although `ParseNumber` models the sign.
- Deliverables.Estimate: the ratio is exact in the model. JavaScript multiplies by the floating-point `concl / total`, so results can differ at .5 boundaries. For example, with a contract value of 45 cents and 7 of 10 subtasks done, JavaScript gives 31 and the model gives 32.
- Kpi.MeasuredPct and the other percentages are exact `real` values rather than floating-point numbers.
- pt-BR collation and Unicode `toLowerCase` are parameters, not definitions.
- Legacy.LegacyFilterAgrees assumes that `lower` maps only the empty string to the empty string.
- Legacy.Page: the values of the two `<select>` elements are fields of the page. The HTML option markup is left out.
- Deliverables.ComputeDeliverables and Charts.ComputeCharts: an entry of a JavaScript `Map` is updated in place through the object it holds. The model replaces the entry's value instead, because nothing else holds that object.
- The legacy rows have no discipline field. The model leaves it "".
