# Exoplanet data cleaning, modelled in Dafny

This project models the cleaning passes of an exoplanet explorer. The passes
run on the table fetched from the NASA Exoplanet Archive, before the table is
written to CSV or SQLite. There are two of them:

- `clean_exoplanet_data` in `data_fetcher.py` does the following, in order:
  - converts 26 measurement columns to numbers;
  - drops rows that are entirely empty, then rows without a planet name;
  - keeps the first row of each planet name;
  - adds five columns: a 0–100 habitability score, a planet type from the
    radius, a discovery era, a distance category, and a fetch timestamp.
- `clean_exoplanet_data` in `data_extraction.py` does less, in a different
  order:
  - keeps the first row of each planet name;
  - converts the discovery year to a number;
  - drops rows missing a radius, an equilibrium temperature or an orbital
    period;
  - only then converts five measurement columns to numbers.

The table is modelled as a set of column names and a sequence of rows
(`sequences.dfy`, `data_frames.dfy`):

- A row maps column names to cells, and a cell is a number, a string, or
  missing (NaN).
- A frame (`DataFrames.DataFrame`) is a class whose `columns` and `rows`
  fields the in-place steps reassign.
- Each `dropna` and `drop_duplicates` builds a new frame.
- Column reads of an absent column raise `KeyError`, which is modelled as a
  `Result`.

`data_fetcher.dfy` models the first pass, including its two per-row
functions and the right-closed binning of `pd.cut`. `data_extraction.dfy`
models the second pass. Each pass has two forms:

- a method, which works on frames the way the Python does;
- a specification function (`DataFetcher.Clean`, `DataExtraction.CleanExtraction`),
  which the method is proved to compute.

The lemmas state what the passes promise about their output.

## Model

| member | source | states |
|---|---|---|
| Sequences.Filter | data_fetcher.py:92-95 | a boolean-mask row filter returns an order-preserving selection of rows that all pass, and every passing row is in it |
| Sequences.FilterKeepsCount | data_fetcher.py:92-95 | the filter keeps every copy of a passing row and no copy of a failing one, so equal rows are neither merged nor dropped |
| DataFrames.ToNumeric | data_fetcher.py:89 | `pd.to_numeric(errors='coerce')` on one cell: numbers stay, no string survives, and the result is missing exactly when the cell was missing or was a string that reads as no number |
| DataFrames.CoerceRow | data_fetcher.py:87-89 | coercion keeps a row's columns, converts exactly the listed columns the row has, and leaves every other cell (`pl_name`, `hostname`, ...) untouched |
| DataFrames.CoerceRowTwice | data_extraction.py:13-29 | coercing by one list and then another is coercing once by both; a column converted twice does not change again |
| DataFrames.CoerceOneMore | data_fetcher.py:87-89 | one turn of the `for col in numeric_columns` loop extends the coerced list by `col`, and skips a column the frame lacks |
| DataFrames.CoercePreservesSubseq | data_extraction.py:16-29 | coercion commutes with deleting rows: coercing a selection gives a selection of the coerced frame |
| DataFrames.CoerceColumnsTwice | data_extraction.py:13-29 | two coercion passes over a frame equal one pass by both lists |
| DataFrames.CoerceKeepsDistinctKeys | data_extraction.py:13-29 | coercion that does not touch the name column keeps names distinct |
| DataFrames.DataFrame.ToNumericColumns | data_fetcher.py:87-89 | the in-place coercion loop leaves the columns alone and turns the rows into their coercion by the whole list |
| DataFrames.DataFrame.Assign | data_fetcher.py:109 | `df[col] = values` adds or overwrites one column, one value per row, and changes nothing else |
| DataFrames.DropAllMissingExact | data_fetcher.py:92 | `dropna(how='all')` keeps, in order, every copy of each row with at least one present cell and nothing else; only a missing cell counts as missing, so an empty string keeps a row |
| DataFrames.DropMissingInExact | data_fetcher.py:95 | `dropna(subset=...)` keeps, in order, every copy of each row whose subset cells are all present and nothing else; text of any kind, the empty string included, counts as present |
| DataFrames.AbsentColumns | data_extraction.py:16 | the columns named in `KeyError` by `dropna(subset=...)` are exactly the subset columns the frame lacks |
| DataFrames.DropDuplicates | data_fetcher.py:99 | `drop_duplicates(keep='first')` returns an order-preserving selection with the same set of keys and no key twice |
| DataFrames.DropDuplicatesKeepsFirst | data_fetcher.py:99 | each row it keeps is the first input row with that key |
| DataFrames.SubseqKeepsDistinctKeys | data_extraction.py:10-16 | deleting rows after de-duplication keeps names distinct |
| DataFetcher.HabitabilityScore | data_fetcher.py:133-155 | 35/40/25 points for radius in [0.5, 2], temperature in [200, 350] and period in [200, 500]; the score lies in 0..100 and is one of eight values; it exceeds 50 exactly when two criteria hold, is 100 exactly when all three hold, and is 0 exactly when none does |
| DataFetcher.HabitabilityScoreDeterminesCriteria | data_fetcher.py:138-155 | equal scores mean the same criteria were met |
| DataFetcher.ClassifyPlanetType | data_fetcher.py:158-172 | every radius gets exactly one class: Unknown exactly when it is missing or the column is absent, then the half-open bands < 1.25, [1.25, 2), [2, 4), [4, 10), ≥ 10, each boundary going to the larger class |
| DataFetcher.PlanetTypeMonotone | data_fetcher.py:166-170 | a larger radius never gets a smaller class |
| DataFetcher.Cut | data_fetcher.py:115-123 | `pd.cut` gives a label only to a present value, and only the label of a right-closed bin holding it |
| DataFetcher.CutExact | data_fetcher.py:115-123 | with increasing edges and distinct labels, a value gets label i exactly when it lies in (edges[i], edges[i+1]], and no label exactly when it is missing or outside (first edge, last edge] |
| DataFetcher.DiscoveryEra | data_fetcher.py:115-117 | each era label holds exactly for its right-closed bin of years, so 2000 is Pre-2000 and 2010 is 2000s; no era exactly for a missing year, a year ≤ 0, or one > 2030 |
| DataFetcher.DistanceCategory | data_fetcher.py:120-123 | each distance label holds exactly for its bin (0,50], (50,100], (100,500], (500,10000]; no category exactly for a missing distance, one ≤ 0, or one > 10000 |
| DataFetcher.Enriched | data_fetcher.py:109-126 | a row gains exactly the five derived columns, keeps every other cell, and carries the fetch timestamp |
| DataFetcher.EnrichedDerivedCells | data_fetcher.py:109-123 | the derived score is a number in 0..100; the type is "Unknown" exactly when the radius is missing; the era and distance cells are missing exactly when the value is missing or outside every bin |
| DataFetcher.EnrichedStepwise | data_fetcher.py:109-126 | computing each derived column from the frame as it stands after the earlier ones were added gives the same row |
| DataFetcher.AssignedColumnsEnrich | data_fetcher.py:109-126 | the five column assignments in sequence enrich every row |
| DataFetcher.EnrichPreservesWellFormed | data_fetcher.py:109-126 | every enriched row has the frame's columns plus the five derived ones |
| DataFetcher.Clean | data_fetcher.py:67-130 | an empty frame comes back unchanged; otherwise `KeyError` is raised exactly when `pl_name`, `disc_year` or `sy_dist` is absent |
| DataFetcher.SurvivorsOrdered | data_fetcher.py:92-99 | the rows left by the three filters are an order-preserving selection of their input, never longer |
| DataFetcher.SurvivorsNamed | data_fetcher.py:95-99 | every surviving row has a planet name, and no name occurs twice |
| DataFetcher.HasNameForms | data_fetcher.py:95 | a row has a planet name exactly when its `pl_name` key cell is present, which is exactly when it survives `dropna(subset=['pl_name'])` |
| DataFetcher.CleanedNamed | data_fetcher.py:92-130 | the cleaned frame is never longer than the input, every row is named, and names are pairwise distinct |
| DataFetcher.SurvivorIsFirst | data_fetcher.py:92-99 | each row left by the three filters has a present name and is the first input row with that name |
| DataFetcher.CleanedRowIsFirst | data_fetcher.py:87-126 | each cleaned row is the enrichment of the coerced first input row with its planet name, and that name is present |
| DataFetcher.CleanedKeepsEveryName | data_fetcher.py:92-126 | every present planet name of the input appears in the cleaned frame |
| DataFetcher.CleanedShape | data_fetcher.py:87-126 | the cleaned frame is the enrichment of an order-preserving selection of the coerced input, with the input's columns plus the derived ones |
| DataFetcher.DropUnusableRows | data_fetcher.py:91-100 | the two `dropna` calls and `drop_duplicates` build new frames holding the survivors; `KeyError` exactly when there is no `pl_name` column |
| DataFetcher.AddDerivedColumns | data_fetcher.py:108-126 | the five assignments, in place, enrich every row; reading an absent `disc_year` or `sy_dist` raises `KeyError` and leaves the frame with the score and type columns, plus the era column when `disc_year` is present |
| DataFetcher.PartlyEnriched | data_fetcher.py:109-117 | after such a `KeyError`, each added score, type and era cell equals the cell the completed pass gives that row |
| DataFetcher.PartlyEnrichedKeeps | data_fetcher.py:109-117 | after such a `KeyError`, each row has exactly its old columns plus the ones added so far, and every cell not yet reassigned, an existing `distance_category` or `data_fetched_at` cell included, is unchanged |
| DataFetcher.AddedCells | data_fetcher.py:109-117 | each cell added before such a `KeyError` is computed from the row's own source columns, not from cells added before it |
| DataFetcher.CleanExoplanetData | data_fetcher.py:67-130 | the pass returns an empty frame itself; otherwise it coerces the caller's frame in place and returns a new frame equal to `Clean`, or the same `KeyError` |
| DataExtraction.CleanExtraction | data_extraction.py:3-31 | `KeyError` exactly when `pl_name` is absent from a non-empty frame, or `disc_year` or a critical column is absent |
| DataExtraction.CompleteRowIsFirst | data_extraction.py:10-16 | a row that passes the filter is the first input row with its name, with its year coerced, and that row had all three critical values |
| DataExtraction.ExtractedRowIsFirst | data_extraction.py:10-29 | each output row is the coerced copy of the first input row with its name, and that row had a radius, a temperature and a period |
| DataExtraction.ExtractedKeepsFirstRows | data_extraction.py:10-29 | the same, for every output row at once |
| DataExtraction.CompleteKeepsPlanet | data_extraction.py:10-16 | every planet whose first row has a radius, a temperature and a period survives the filter |
| DataExtraction.ExtractedKeepsCompletePlanets | data_extraction.py:10-29 | every planet whose first row has a radius, a temperature and a period is in the output; with `ExtractedKeepsFirstRows` this pins down which planets the pass returns |
| DataExtraction.IncompleteFirstRowDropsPlanet | data_extraction.py:10-16 | a planet whose first row lacks a critical value is absent from the output, whatever its later rows hold |
| DataExtraction.LaterCompleteDuplicateIgnored | data_extraction.py:10-16 | two rows for one planet, the first lacking a critical value, give an empty output |
| DataExtraction.ExtractedOrdered | data_extraction.py:10-29 | the output is an order-preserving selection of the coerced input and is never longer than the input |
| DataExtraction.ExtractedDistinctNames | data_extraction.py:10 | output names are pairwise distinct |
| DataExtraction.MissingCriticalAfterCoercion | data_extraction.py:16-29 | an output critical value is missing exactly when the first row held text that reads as no number there |
| DataExtraction.UnreadableRadiusSurvivesAsMissing | data_extraction.py:16-29 | a lone row whose radius is unreadable text passes the filter and comes out with a missing radius |
| DataExtraction.LoneCompleteRowKept | data_extraction.py:10-29 | a lone row with every critical value survives, coerced |
| DataExtraction.OtherColumnsUnchanged | data_extraction.py:13-29 | every cell outside `disc_year` and the five listed columns is that of the first input row |
| DataExtraction.Deduplicate | data_extraction.py:10 | `drop_duplicates(subset="pl_name")` copies an empty frame as it is and de-duplicates any other, into a new frame |
| DataExtraction.DropIncompleteAndCoerce | data_extraction.py:16-29 | for a frame that has every critical column (the caller raises `KeyError` otherwise), the critical-column filter into a new frame, then the in-place coercion of the listed columns |
| DataExtraction.CleanExoplanetData | data_extraction.py:3-31 | the pass leaves the caller's frame alone and returns a new frame equal to `CleanExtraction`, or the same `KeyError` |

## Left out

- `fetch_exoplanet_data` (`data_fetcher.py:11-64`) is not modelled: an HTTP request to the archive plus JSON decoding.
- `save_to_csv` and `main` (`data_fetcher.py:175-235`) are not modelled: file I/O and console output.
- `App.py` is not part of this model: a Streamlit user interface over SQLite queries.
- `database_setup.py` is not part of this model: table creation and inserts, whose meaning lies in SQLite.
- The console messages, and the duplicate count that is only printed, are not modelled.
- The fetch time (`datetime.now().strftime(...)`) is a string parameter `fetchedAt`.
- The pandas number parser is a parameter `parse`. Which strings read as numbers (`"inf"`, `"1e3"`, whitespace) is not modelled.
- Measurements are mathematical reals compared with the literal thresholds. IEEE rounding is not modelled, and NaN is the `Missing` cell.
- The integer score column is stored as a number cell.
- `pd.cut` produces a categorical column. The model stores its labels as text cells, with `Missing` for NaN.
- A cell is a number, a string or missing. JSON booleans and nested values are not modelled.
- The column order and the row index labels are not modelled. A frame's columns are a set, and rows keep their relative order.
- Column absence is only modelled where the source reads or filters by the column; a column present in some rows and not others cannot arise, since every row has exactly the frame's columns.
