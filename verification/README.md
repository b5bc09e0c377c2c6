# Ankara district choropleth — a Dafny model of the server pipeline

The application serves a map of the districts (`ilçe`) of Ankara. At start-up
it reads the boundary rows of every district in Turkey, keeps those whose
province column `il_adi` is `"Ankara"`, renames the district-name column `ad`
to `ilce` and derives the sorted district list shown in the upload form.
Uploaded CSV files of temperature readings (`sicaklik`) are reduced to their
column mean and stored per district in the process-wide dictionary
`processed_data` (metric → district → mean). A map request left-merges the
catalog with one metric's means and colours each district: above 17 red,
above 15 yellow, otherwise blue, grey when there is no mean.

The model, module by module:

- `Wrappers` — `Option`, used for null cells, NaN means and absent form fields.
- `TextOrder` — Python's string order (code point by code point, a prefix
  first), its laws, and `SortedUnique`, the `sorted(... .unique())` of a name list.
- `Classification` — the colour rule `get_color`.
- `Aggregation` — the column mean `df['sicaklik'].mean()`: missing cells are
  skipped, and a column with no present cell gives NaN (`None`).
- `Catalog` — boundary rows (province, optional district name, an opaque
  geometry token), the province filter, the district list, and the outcome of
  `load_and_filter_map` on each of its paths.
- `MapAssembly` — the left merge on `ilce`, the colour column, and the
  document the map endpoint promises (`Annotate`): one feature per catalog row.
- `Server` — class `App` holding the three globals (`catalog` for
  `ankara_gdf`, `districts` for `ANKARA_ILCELERI`, `store` for
  `processed_data`) with the load and the two request handlers as methods.
  Handlers return a reply value (success flag, HTTP status, outcome).

Stored means are `Option<real>`, not `real`: an upload whose `sicaklik`
column has no present cell stores NaN, and that entry makes the metric's
dictionary non-empty, which sends a later map request down the merge path.

An upload whose `sicaklik` column has no present cell is stored as NaN; an
upload for any other metric gets success false with status 200; district
names are matched exactly, with no case folding or trimming; there is no
composite multi-metric score.

## Model

| member | source | states |
|---|---|---|
| `Classification.Color` | app.py:123-130 | grey exactly when the mean is missing; red exactly when above 17; yellow exactly when above 15 and at most 17; blue exactly when at most 15; always one of the four upper-case `#RRGGBB` strings |
| `Classification.ColorMonotone` | app.py:126-130 | a higher mean never gets a colder colour |
| `Classification.ThresholdsFallToLowerTier` | app.py:126-130 | 17 is yellow, 15 is blue, 17.1 red, 10 blue: values on a threshold take the lower tier |
| `Aggregation.Mean` | app.py:84 | the mean is NaN (None) exactly when the column has no present cell |
| `Aggregation.MeanSkipsMissing` | app.py:84 | inserting a missing cell anywhere leaves the mean unchanged |
| `Aggregation.MeanWithinBounds` | app.py:84 | the mean lies within any bounds that hold of every present cell |
| `Aggregation.MeanOfConstant` | app.py:84 | a column whose present cells all equal v has mean v |
| `TextOrder.Less` | app.py:46 | the string order `sorted` uses: never relates a name to itself, and a proper prefix sorts first |
| `TextOrder.SortedUnique` | app.py:46 | the result is strictly ascending (sorted, no duplicates) and holds exactly the input's names |
| `TextOrder.SortedEnumerationUnique` | app.py:46 | two strictly ascending lists with the same names are the same list |
| `Catalog.FilterProvince` | app.py:32 | every kept row is an input row of the province |
| `Catalog.FilterAppend` | app.py:32 | filtering distributes over concatenation, so relative order is kept |
| `Catalog.FilterCount` | app.py:32 | a row of the province is kept as many times as it occurs; any other row never |
| `Catalog.FilterMembership` | app.py:32 | a row is in the catalog iff it is an input row whose `il_adi` is `"Ankara"` |
| `Catalog.DistrictList` | app.py:46 | the district list is strictly ascending and its names are exactly the catalog's `ilce` values |
| `Catalog.DistrictListIsTheSortedNames` | app.py:46 | any strictly ascending list of exactly the catalog's names is the district list |
| `Catalog.LoadAndFilter` | app.py:18-51 | a load keeps the district list strictly sorted and only ever replaces the catalog by a frame, never by None |
| `Catalog.LoadedCatalog` | app.py:32-46 | after a successful load the catalog is exactly `FilterProvince` of the source rows (the Ankara rows in order, with multiplicity) under the `ilce` header, and the list is strictly ascending with exactly the catalog's names |
| `Catalog.LoadFailsEarly` | app.py:28-32 | a read failure or a missing `il_adi` column leaves catalog and list as they were (None and empty at start-up) |
| `Catalog.LoadStoresUnrenamedFrame` | app.py:32-43 | an empty filter stores the empty frame (not None); a missing `ad` column stores the unrenamed filtered frame; the list is kept |
| `MapAssembly.Annotate` | app.py:117-132 | the promised document has exactly one feature per catalog row |
| `MapAssembly.AnnotateWithoutData` | app.py:110-115 | with no stored means every row is unchanged, without a mean, and grey |
| `MapAssembly.LeftMerge` | app.py:120 | a left merge never yields fewer rows than the catalog, and every output row comes from a catalog row |
| `MapAssembly.LeftMergeKeepsEveryRow` | app.py:120 | every catalog row appears in at least one merged row, whether or not it has a match (`how='left'`) |
| `MapAssembly.Colorize` | app.py:132 | one output row per merged row, row and `ortalama` unchanged, `renk` is the colour rule applied to `ortalama` (grey exactly when it is missing) |
| `MapAssembly.MatchesOfDistinctKeys` | app.py:117-120 | with the store's unique keys a district name matches at most one pair, the dictionary's entry |
| `MapAssembly.LeftMergeIsLookup` | app.py:117-120 | the left merge yields exactly one row per catalog row, in order, with the stored mean or none |
| `MapAssembly.ColoredMergeIsAnnotate` | app.py:117-132 | merging and then applying the colour rule gives the promised document |
| `MapAssembly.DuplicateKeysDuplicateRows` | app.py:120 | with a repeated key the merge would emit two rows for one catalog row, so key uniqueness is what keeps it one-to-one |
| `MapAssembly.ItemsOf` | app.py:117 | lists each key of the dictionary once with its value |
| `Server.Record` | app.py:85 | the (metric, district) entry holds the new mean; every other entry and every metric key is unchanged |
| `Server.LastWriteWins` | app.py:84-85 | a second upload for the same district replaces the first mean instead of averaging with it |
| `Server.App.constructor` | app.py:15-60 | catalog None, empty district list, store with empty `sicaklik`, `nem` and `egim` dictionaries |
| `Server.App.LoadAndFilterMap` | app.py:18-51 | the globals become `LoadAndFilter` of the read outcome and the old globals; the store is untouched |
| `Server.App.UploadData` | app.py:69-96 | a missing form field or unreadable CSV gives 500; an unnamed file 400; `sicaklik` without the column 400; another metric success false with 200; all leave the store unchanged; otherwise success, 200, and the store records the column mean for the district |
| `Server.App.GetMapData` | app.py:99-138 | catalog None gives 500; no entries for the metric gives every row grey without a mean; a catalog without `ilce` gives 500; otherwise the document is `Annotate` of the catalog and the metric's means; nothing is modified |

## Left out

- Reading the boundary file and the CSV (`gpd.read_file`, `pd.read_csv`) is an input: the model receives their outcome (`ReadResult`, `FilePart`).
- Geometry contents and coordinate reference systems: geometry is an opaque token carried through unchanged.
- Flask routing, `render_template` (the `index` route that hands the district list to the page), form parsing and JSON serialisation: only the reply's flag, status and outcome are modelled, not message texts.
- Floating point: means are exact `real`s; rounding of `mean()` and the `:.2f` message formatting are not modelled.
- `print` logging is not modelled.
- Non-numeric CSV cells (pandas raises on their mean, giving a 500) are not modelled: cells are numbers or missing.
- Catalog.LoadAndFilter: when every name of the Ankara rows is null, pandas would produce a one-element list holding a null; the model treats it like a mixed list, where `sorted` raises and the list is kept.
- A boundary file with both an `ad` and an `ilce` column (whose rename would duplicate the header) is not modelled: a source has one name header.
- Other exceptions inside `get_map_data` than the merge on a frame without `ilce` (line 137-138) are not modelled.
- The order of `processed_data`'s items (insertion order in Python) is not modelled; `LeftMergeIsLookup` shows the merge result does not depend on it.
- Concurrency: requests are modelled as running one at a time on one process. Flask's development server handles requests on threads, and each gunicorn worker process holds its own `processed_data`; neither is modelled (each handler makes at most one dictionary write).
- `static/app.js` is browser code and is not part of this model.
