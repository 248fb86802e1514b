# Unemployment insight page: data transform and views

This project models the data core of a Streamlit page that shows Norwegian
unemployment figures from Statistics Norway (SSB), table 08517. The page asks
the SSB API for a JSON-stat 2.0 cube over three dimensions: time (`Tid`),
gender (`Kjonn`) and age group (`Alder`). `fetch_ssb_data` unpivots the
cube's flat `value` array into one record per (year, gender, age group).
The page then filters that table into five chart views. Each view hands
its rows to a text-generation service, projected onto a few columns. The
four comparison views also drop duplicate rows; the overall trend does not.

The model is in seven modules:

- `JsonStat` (jsonstat.dfy) is the decoded response body. It covers the
  dictionary lookups with their `get(code, code)` fallback, and the choice
  between the `label` object and the `index` object as the label table.
- `Layout` (layout.dfy) is the row-major position `i*G*A + j*A + k` of a
  cell in the flat value array, with its inverse.
- `Numbers` (numbers.dfy) is decimal integer parsing and the signed 64-bit
  range. It stands in for `astype(int)` on text years and, for integer text
  only, for `to_numeric` on text counts.
- `Unpivot` (unpivot.dfy) is the transform itself. `Unpivot.Unpivot` is the
  triple loop, written as methods with loop invariants: the loop over time
  codes is `Unpivot.Unpivot`, the loop over gender codes
  `Unpivot.AppendGenderBlocks`, the loop over age codes
  `Unpivot.AppendAgeRows`. Together they are proved equal
  to a specification built block by block: each time code's gender blocks,
  each gender code's age rows. The column conversions are all or nothing.
- `Views` (views.dfy) holds the five row filters, the empty-view warnings,
  the page-level guard, the column projections and `drop_duplicates`.
- `Insight` (insight.dfy) is the API-key guard and the error message around
  the text-generation call.
- `Scenarios` (scenarios.dfy) holds two worked responses, one with `label`
  objects and one without, and the tables they produce.

The code and its description disagree in two places. The model follows the
code in both:

- **An axis with no codes gives no table.** It does not give an empty table.
  An empty record list builds a DataFrame with no columns. Selecting `"År"`
  then raises, so the function returns `None`. Because of this, the
  `df.empty` test on the page never fires for a fetched table
  (`Views.PageFailsIffTransformFails`).
- **Without a `label` object, the `index` object becomes the label table.**
  So a year becomes its position (0, 1, ...), not its code ("2020"). An age
  group becomes an integer position, not the code text
  (`Scenarios.IndexOnlyExample`). Falling back to the code happens only for
  a code missing from the chosen table.

## Model

| member | source | states |
|---|---|---|
| JsonStat.Extract | app.py:55-72 | The axes exist exactly when `dimension`, `value` and each of `Tid`, `Kjonn`, `Alder` with a `category.index` are present. The codes are the index keys in order. The label table is `label` when present, else `index`. |
| JsonStat.Lookup | app.py:76 | `table.get(code, code)`: a code in the table yields that table's entry (text for `label`, integer for `index`), and an absent code yields the code itself |
| JsonStat.Get | app.py:76 | The lookup succeeds exactly when the key is one of the dictionary's keys, and then returns an entry stored under that key |
| Unpivot.GenderLabel | app.py:62-78 | `gender_map.get(code, code)`: a mapped code gets its own fixed Norwegian name, and an unmapped code passes through unchanged |
| Layout.PosExpanded | app.py:83-85 | The factored position equals the source's `time_idx*G*A + gender_idx*A + age_idx` |
| Layout.PosInRange | app.py:83-85 | Every cell of the cube has a position below T*G*A |
| Layout.CellOfPos | app.py:83-85 | Decoding a cell's position gives back the cell |
| Layout.PosOfCell | app.py:83-85 | Every position below T*G*A is the position of exactly the cell it decodes to, so positions are onto [0, N) |
| Layout.PosInjective | app.py:83-85 | Distinct cells have distinct positions |
| Layout.PosOrder | app.py:75-85 | Cell order time→gender→age (lexicographic) is exactly position order |
| Unpivot.RawRecordsAt | app.py:75-96 | The unpivoted list holds, at each cell's position, the row for that cell |
| Unpivot.Unpivot | app.py:59-96 | The nested loops build exactly the block-by-block specification list, with one row per cell in nesting order and the value at the row-major position (missing past the end) |
| Unpivot.AppendAgeRows | app.py:79-96 | For one time and gender code, the age loop appends exactly that pair's age block, with labels from the tables and the value at the row-major position (missing past the end) |
| Unpivot.AppendGenderBlocks | app.py:77-96 | For one time code, the gender loop appends exactly that code's gender blocks, each with its fixed gender name |
| Unpivot.YearOf | app.py:102 | `astype(int)` on one year cell: it succeeds exactly on an integer, or an integer literal, that fits a signed 64-bit integer, and then yields that value |
| Unpivot.Convert | app.py:99-103 | The conversion succeeds exactly when there is at least one row and every year converts to an integer, and it then keeps every row |
| Unpivot.FetchSsbData | app.py:55-105 | The method returns the table the transform defines for the decoded body |
| Unpivot.TableRows | app.py:75-103 | The table has T*G*A > 0 rows. The row at a cell's position has that cell's year label as an integer, its fixed gender name, its age label, and its value converted with missing-on-error. |
| Unpivot.CountPastEndMissing | app.py:88 | A position past the end of `value` gives a missing count, and a position within it gives the converted value |
| Unpivot.SyntheticValues | app.py:83-88 | With values 0..N-1, every row's count is its own position |
| Unpivot.TableFails | app.py:99-109 | No table exactly when a key is missing, an axis is empty, or some year label is not an integer that fits 64 bits |
| Unpivot.EmptyAxisGivesNoTable | app.py:99-102 | An empty axis yields no table rather than an empty one |
| Unpivot.GendersFromFixedMap | app.py:62-78 | Every gender in the table is a fixed name, or an unmapped gender code of the response |
| Unpivot.UpstreamGenderLabelsIgnored | app.py:67-78 | Replacing or removing the response's gender `label` object never changes the table |
| Numbers.ParseInt | app.py:102-103 | Parsing succeeds exactly on an optional sign followed by decimal digits |
| Numbers.ParseShowRoundTrip | app.py:102 | Every integer's decimal text parses back to that integer |
| Scenarios.IndexOnlyExample | app.py:66-68 | A two-year cube without `label` objects gives years 0 and 1 and the integer age group 0, with counts in order |
| Scenarios.LabelledExample | app.py:66-103 | The same cube with `label` objects gives years 2020 and 2021 and the age group "15-74 år", with counts in order |
| Views.Select | app.py:196-386 | A view keeps a row exactly when the row is in the table and passes the view's mask, and it never adds rows |
| Views.SelectIsSubsequence | app.py:196-386 | A view keeps the table's rows in their original order |
| Views.SelectIdempotent | app.py:196-386 | Filtering a view's rows again with the same mask changes nothing |
| Views.SelectConcat | app.py:196-386 | Filtering a concatenation filters each part separately and concatenates the results |
| Views.ViewsDisjoint | app.py:196-386 | No row passes two views' masks |
| Views.ShowView | app.py:196-234 | A chart shows exactly the view's filtered rows, which are non-empty and in table order. Otherwise the panel is the view's own warning, and the filter is empty. |
| Views.WarnsIffNoMatch | app.py:196-234 | A view shows its warning exactly when no row of the table passes its mask |
| Views.RenderPage | app.py:185-433 | The page fails to load exactly when there is no table or it is empty. Otherwise it has one panel per view, and panel n is view n's chart or warning. |
| Views.PageFailsIffTransformFails | app.py:185-433 | The page shows its load error exactly when the transform gives no table |
| Views.Dedup | app.py:275-419 | `drop_duplicates` keeps the same set of rows, without duplicates, and never lengthens the table |
| Views.DedupOfDistinct | app.py:275-419 | A table without duplicates is unchanged |
| Views.DedupIdempotent | app.py:275-419 | De-duplicating twice equals de-duplicating once |
| Views.DedupIsSubsequence | app.py:275-419 | De-duplication keeps rows in their original order |
| Views.DedupPrefix | app.py:275-419 | The first occurrence is the one kept: de-duplicating a prefix gives a prefix of the whole result |
| Views.InsightDataRows | app.py:228-275 | The data for a view holds exactly the projections of the rows the view selects. It is no longer than the view, and it has no duplicates except in the overall trend, which is not de-duplicated. |
| Insight.FullPrompt | app.py:128 | The prompt begins with the chart's context and ends with the data text |
| Insight.FailureMessage | app.py:133-137 | The failure message starts with the fixed prefix, followed by the error text, and grows by the hint only when the error mentions an invalid key |
| Insight.NoKeyNoCall | app.py:118-119 | With a missing or empty key, the result is the fixed message whatever the service would answer |
| Insight.WithKey | app.py:118-131 | With a key, an answer to the full prompt is shown unchanged and a failure is reported with the failure prefix |
| Insight.HintIffInvalidKey | app.py:135-136 | The invalid-key hint is appended if and only if the error mentions "API key not valid" |
| Insight.InvalidKeyExample | app.py:135-136 | An error that contains the service's invalid-key wording gets the hint |

## Left out

- The HTTP request, the response status check and JSON decoding are not modelled. The transform starts from the decoded body. A failed request is one more path to `None`.
- The Streamlit cache, the sidebar and session state are not modelled. The API key is a parameter.
- Charts are not modelled, beyond the rows each chart is drawn from.
- The text-generation service is a function parameter. Its replies are not modelled.
- The timestamp in the footer is not modelled.
- Counts are integers or missing (`None` in place of NaN). Non-integer numbers and floating point are not modelled.
- The `value` array's sparse object form, which JSON-stat allows, is not modelled. The code indexes `value` as a list.
- Numbers.ParseInt: accepts exactly an optional sign and ASCII digits. The surrounding whitespace, underscores and non-ASCII digits that Python's `int()` also accepts are not modelled.
- Unpivot.ToNumeric: a count given as text is numeric only in integer form. `to_numeric` also turns text such as "1e3" or "12.0" into a number, but the model makes it missing. This is because counts are integers here and floating point is left out. An integer count beyond the 64-bit range, which pandas would hold as a float or an object, is kept as the exact integer.
- JsonStat.Extract: a `category.index` given in the array form, which JSON-stat also allows, is not modelled. Such a response makes `.keys()` raise at app.py:70, so the source returns no table. `Category.index` holds only the object form.
- JsonStat.Get: a JSON object is modelled as a list of key/value pairs in document order, and lookup takes the first match. Duplicate keys, where Python keeps the last, are not modelled.
- JSON objects other than dimension categories are not modelled: `id`, `size`, `role` and the other metadata the code never reads.
