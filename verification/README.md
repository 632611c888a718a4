# NVISIA location resolution and selection refresh, in Dafny

This project models two pieces of the NVISIA news dashboard and proves what they promise.

- **Location resolution (`Geocoder`).** Each article in table `summary` has an `event_loc`
  column: a comma-separated list of place names. `get_event_loc` turns the rows fetched for a
  list of article ids into an ordered list of location keys. It splits on `,`, strips
  whitespace, drops empty pieces and removes repeats, keeping first-seen order.
  `get_geometry` looks the keys up in table `geojson` and builds an insertion-ordered dict.
  `get_map_single` and `get_map` draw one Folium layer per dict entry. `get_org` and
  `do_spatial_join` answer nothing, without a query, when an input list is empty.
- **Selection refresh (dashboard).** On each Streamlit rerun the dashboard reads the selected
  table row. Only when that gives an article id that differs from the committed
  `selected_id` does it commit the id, rebuild the map (`get_map_single`) and fetch ten
  recommendations. The recommendations are left-merged with the articles' summaries into
  `rec_df`. Beside this sit the expand toggle with its table height, the column filters and
  the summary truncation of the recommendation table.

Layout, one module per file:

| file | module | contents |
|---|---|---|
| `wrappers.dfy` | `Wrappers` | `Option`, Python's `None`-or-value |
| `seqs.dfy` | `Seqs` | `FlatMap`, `Dedup` (`list(dict.fromkeys(...))`), `FirstIndex` |
| `store.dfy` | `Store` | table rows and the `WHERE col = ANY(%s)` filters |
| `location_keys.dfy` | `LocationKeys` | `str.split(",")`, `str.strip()`, key extraction loop |
| `geo_dict.dfy` | `GeoDicts` | the insertion-ordered geometry dict and its filling loop |
| `overlay.dfy` | `Overlay` | the Folium map object, its layers and the drawing loop |
| `frames.dfy` | `Frames` | `rec_df`, the left merge, column filters, truncation |
| `recommender.dfy` | `Recommendation` | the recommender stub, which records its calls |
| `geocoder.dfy` | `Geocoding` | class `Geocoder`: tables, statement log, the five operations |
| `dashboard.dfy` | `Dashboard` | class `Session`: `st.session_state` and the rerun logic |

The `Geocoder` holds its tables as constants and records every statement it sends to the
database in `log`. It also keeps a ghost count of `get_geometry` calls. So "no query" and
"`get_geometry` is not called" are postconditions. The `Recommender` stub records every
`(id, k)` it is asked for, so "called exactly once" is a postcondition too. The `Session`
keeps an invariant, `Valid()`: once an article is selected, the committed map and `rec_df`
are exactly those of that article.

## Model

| member | source | states |
|---|---|---|
| `Seqs.Dedup` | test_python_files_csv/geocoder_ver2_csv.py:63 | the result has no repeats; it holds every element of the input and nothing else |
| `Seqs.DedupFirstSeenOrder` | test_python_files_csv/geocoder_ver2_csv.py:63 | elements of the result appear in the order of their first occurrence in the input |
| `Seqs.DedupOfDistinct` | test_python_files_csv/geocoder_ver2_csv.py:63 | a list without repeats comes back unchanged |
| `Store.Where` | test_python_files_csv/geocoder_ver2_csv.py:45-51 | the fetched rows are table rows satisfying the filter, and every table row satisfying it is fetched |
| `Store.WhereAppend` | test_python_files_csv/geocoder_ver2_csv.py:45-51 | filtering a concatenation is the concatenation of the filtered parts, so matching rows keep their table order |
| `Store.WhereCounts` | test_python_files_csv/geocoder_ver2_csv.py:45-51 | each matching row is fetched as often as the table holds it, repeats included; no other row is fetched |
| `Store.WhereAgrees` | test_python_files_csv/geocoder_ver2_csv.py:48 | two filters that agree on every row fetch the same rows in the same order |
| `LocationKeys.Split` | test_python_files_csv/geocoder_ver2_csv.py:58 | splitting always yields at least one piece, as `str.split(",")` does |
| `LocationKeys.JoinSplit` | test_python_files_csv/geocoder_ver2_csv.py:58 | joining the pieces with `,` gives back the original string |
| `LocationKeys.SplitPiecesHaveNoComma` | test_python_files_csv/geocoder_ver2_csv.py:58 | no piece contains a comma |
| `LocationKeys.SplitNoComma` | test_python_files_csv/geocoder_ver2_csv.py:58 | a string without a comma is its own single piece |
| `LocationKeys.SplitPrefix` | test_python_files_csv/geocoder_ver2_csv.py:58 | a comma-free prefix followed by `,` becomes the first piece |
| `LocationKeys.SplitJoin` | test_python_files_csv/geocoder_ver2_csv.py:58 | splitting the `,`-join of comma-free pieces gives the pieces back |
| `LocationKeys.TrimLeftIsSuffix` | test_python_files_csv/geocoder_ver2_csv.py:59 | left trimming removes a whitespace-only prefix and nothing else |
| `LocationKeys.TrimRightIsPrefix` | test_python_files_csv/geocoder_ver2_csv.py:59 | right trimming removes a whitespace-only suffix and nothing else |
| `LocationKeys.Strip` | test_python_files_csv/geocoder_ver2_csv.py:59 | the result neither starts nor ends with whitespace |
| `LocationKeys.StripIsInfix` | test_python_files_csv/geocoder_ver2_csv.py:59 | the result is a contiguous part of the input; only whitespace lies outside it |
| `LocationKeys.StripKeepsChars` | test_python_files_csv/geocoder_ver2_csv.py:59 | every character of the result occurs in the input |
| `LocationKeys.StripTrimmed` | test_python_files_csv/geocoder_ver2_csv.py:59 | a string without outer whitespace is unchanged |
| `LocationKeys.StripIdempotent` | test_python_files_csv/geocoder_ver2_csv.py:59 | stripping twice equals stripping once |
| `LocationKeys.RowTokensMembers` | test_python_files_csv/geocoder_ver2_csv.py:55-61 | a string is a token of a row iff the row's `event_loc` is non-null and non-empty and the string is the non-empty strip of one of its pieces |
| `LocationKeys.KeysAreRowTokens` | test_python_files_csv/geocoder_ver2_csv.py:55-63 | a key is returned iff it is a token of some row; every key is non-empty, trimmed and comma-free |
| `LocationKeys.KeysFirstSeenOrder` | test_python_files_csv/geocoder_ver2_csv.py:53-63 | keys appear in the order they are first met, rows in fetched order and pieces in their order within a row |
| `LocationKeys.BlankRowContributesNothing` | test_python_files_csv/geocoder_ver2_csv.py:55-57 | removing a row whose `event_loc` is null or empty leaves the keys unchanged |
| `LocationKeys.CollectKeys` | test_python_files_csv/geocoder_ver2_csv.py:53-64 | the nested loop returns the keys of the rows: no repeats, exactly the tokens of some row |
| `GeoDicts.Put` | test_python_files_csv/geocoder_ver2_csv.py:89 | a new key goes last and an existing key keeps its place; the key then maps to the new value and every other key is unaffected |
| `GeoDicts.DictKeys` | test_python_files_csv/geocoder_ver2_csv.py:86-90 | the dict's keys are the rows' `event_loc` values, once each, in first-seen order |
| `GeoDicts.DictKeyMember` | test_python_files_csv/geocoder_ver2_csv.py:86-90 | a key is in the dict iff some row carries it |
| `GeoDicts.DictValues` | test_python_files_csv/geocoder_ver2_csv.py:86-90 | each key maps to the geometry of the last row with that key |
| `GeoDicts.LaterRowWins` | test_python_files_csv/geocoder_ver2_csv.py:89 | a row not followed by another with the same key decides that key's value |
| `GeoDicts.AbsentKey` | test_python_files_csv/geocoder_ver2_csv.py:86-90 | a key no row carries is absent from the dict |
| `GeoDicts.CollectGeometry` | test_python_files_csv/geocoder_ver2_csv.py:86-90 | the loop yields the dict of the rows, with those keys in first-seen order and last-row values |
| `Overlay.Layers` | test_python_files_csv/geocoder_ver2_csv.py:118-132 | one layer per dict entry, in dict order, the i-th built from the i-th entry and the i-th colour |
| `Overlay.LayerLabels` | test_python_files_csv/geocoder_ver2_csv.py:127-131 | the layer names are exactly the dict's keys in order; each layer's tooltip is its key and it carries that key's geometry |
| `Overlay.FoliumMap.constructor` | test_python_files_csv/geocoder_ver2_csv.py:148 | a new map has the given location and zoom and no layers |
| `Overlay.FoliumMap.Add` | test_python_files_csv/geocoder_ver2_csv.py:132 | `add_to(m)` appends the layer to the map's children |
| `Overlay.AddLayers` | test_python_files_csv/geocoder_ver2_csv.py:155-168 | the drawing loop appends exactly the layers of the dict to the map's existing children |
| `Recommendation.Recommender.GetSimilarArticles` | test_python_files_csv/geocoder_ver2_csv.py:104 | returns the stub's list for `(id, k)` and records exactly that one call |
| `Geocoding.Geocoder.constructor` | test_python_files_csv/geocoder_ver2_csv.py:9-34 | a geocoder opened on the given tables has executed nothing yet |
| `Geocoding.Geocoder.KeysForSpec` | test_python_files_csv/geocoder_ver2_csv.py:45-63 | the keys for `ids` have no repeats and are exactly the tokens of `event_loc` of the `summary` rows whose id is asked for |
| `Geocoding.Geocoder.KeysIgnoreIdOrder` | test_python_files_csv/geocoder_ver2_csv.py:45-49 | the same set of ids, in any order or repetition, yields the same keys in the same order |
| `Geocoding.Geocoder.KeysGrowWithIds` | test_python_files_csv/geocoder_ver2_csv.py:106-109 | asking for more ids never drops a key, so `get_map` keeps every key of the clicked article |
| `Geocoding.Geocoder.GeometryForSpec` | test_python_files_csv/geocoder_ver2_csv.py:75-90 | no keys give `{}`; otherwise the dict holds, once each, the asked keys that a `geojson` row carries, each with its last row's geometry |
| `Geocoding.Geocoder.GeometryKeyMember` | test_python_files_csv/geocoder_ver2_csv.py:78-90 | for a non-empty key list, a key is in the dict iff it was asked for and a `geojson` row carries it |
| `Geocoding.Geocoder.MapLayerSpec` | test_python_files_csv/geocoder_ver2_csv.py:152-168 | the map's layer names are the geometry dict's keys in order, distinct, exactly the article keys that have a geometry; no keys means no layers |
| `Geocoding.Geocoder.GetEventLoc` | test_python_files_csv/geocoder_ver2_csv.py:36-64 | one `summary` query with the ids; returns the keys for those ids |
| `Geocoding.Geocoder.GetGeometry` | test_python_files_csv/geocoder_ver2_csv.py:66-90 | returns `{}` with no query for no keys; otherwise one `geojson` query and the dict of its rows |
| `Geocoding.Geocoder.GetMapSingle` | test_python_files_csv/geocoder_ver2_csv.py:136-170 | a new map at the given location and zoom with the clicked article's layers; with no key, no layers and neither a geometry query nor a `get_geometry` call |
| `Geocoding.Geocoder.GetMap` | test_python_files_csv/geocoder_ver2_csv.py:95-134 | one recommender call, then a new map with the layers of the keys of `[click_id] + rec_ids`, with the queries for those ids |
| `Geocoding.Geocoder.GetOrg` | test_python_files_csv/geocoder_ver2_csv.py:190-209 | no names give `[]` with no query; otherwise one query and the `nk_org` rows with those names |
| `Geocoding.Geocoder.DoSpatialJoin` | test_python_files_csv/geocoder_ver2_csv.py:211-233 | either list empty gives `[]` with no query; otherwise one query and the intersecting pairs with an asked key and name |
| `Frames.RecIds` | test_python_files_csv/geocoder_ver2_csv.py:105 | one id per recommendation, in list order |
| `Frames.FromRecordsShape` | test_python_files/dashboard_postgres_ver2.py:176-177 | `rec_df` has one row per recommendation, each with its id; it is empty exactly when the list is |
| `Frames.Expand` | test_python_files/dashboard_postgres_ver2.py:178-182 | a left row is never dropped: it yields at least one row, each the left row extended with a missing summary or with the summary of an article whose id matches |
| `Frames.MergeRows` | test_python_files/dashboard_postgres_ver2.py:178-182 | the merge yields at least as many rows as the left frame has |
| `Frames.MergeRowsAppend` | test_python_files/dashboard_postgres_ver2.py:178-182 | merging distributes over concatenation: the rows of earlier left rows come first |
| `Frames.MergeRowsOrigin` | test_python_files/dashboard_postgres_ver2.py:178-182 | every merged row is some left row extended with one summary value |
| `Frames.LeftMerge` | test_python_files/dashboard_postgres_ver2.py:178-182 | no left row is dropped and the columns are the merged columns; with unique article ids, row i is left row i extended with its article's summary or a missing value |
| `Frames.MergeRowForRow` | test_python_files/dashboard_postgres_ver2.py:178-182 | with unique article ids, the merge keeps every left row in order, one for one, extended with its article's summary or a missing value |
| `Frames.MergeRowCells` | test_python_files/dashboard_postgres_ver2.py:178-182 | a merged row holds the summary in the summary column and keeps every other left cell |
| `Frames.MergedColumnsShape` | test_python_files/dashboard_postgres_ver2.py:178-182 | the merge appends the `summary` column; or, on a clash, renames `summary` to `summary_x` in place, keeps every other column, and appends `summary_y` |
| `Frames.MergedColumnMember` | test_python_files/dashboard_postgres_ver2.py:178-182 | exactly which names the merged column list holds, in both the clash and the no-clash case |
| `Frames.MergedColumnsDistinct` | test_python_files/dashboard_postgres_ver2.py:178-182 | merged column names stay distinct when the left frame's are |
| `Frames.MergeRowKeys` | test_python_files/dashboard_postgres_ver2.py:178-182 | a merged row has a cell for exactly the merged columns |
| `Frames.LeftMergeWellFormed` | test_python_files/dashboard_postgres_ver2.py:178-182 | the merge of a well-formed frame is well formed: distinct columns, and every row has exactly those cells |
| `Frames.SelectColumns` | test_python_files/dashboard_postgres_ver2.py:148 | a column is kept iff it is wanted and present |
| `Frames.SelectColumnsAll` | test_python_files/dashboard_postgres_ver2.py:148 | when every wanted column is present, all of them are kept in the wanted order |
| `Frames.SelectColumnsOrder` | test_python_files/dashboard_postgres_ver2.py:203 | the kept columns have no repeats and follow the wanted order |
| `Frames.TruncateSpec` | test_python_files/dashboard_postgres_ver2.py:207 | non-strings and strings of at most 50 characters are unchanged; longer strings become their first 50 characters followed by "..." |
| `Frames.TruncateIdempotent` | test_python_files/dashboard_postgres_ver2.py:207 | truncating a truncated value changes nothing |
| `Frames.RecDisplayCells` | test_python_files/dashboard_postgres_ver2.py:202-207 | the displayed table has the wanted columns present in `rec_df` in display order; its cells are those of `rec_df`, with the summary truncated |
| `Dashboard.TableHeightToggles` | test_python_files/dashboard_postgres_ver2.py:131-137 | the table is 600 high exactly when expanded, 250 otherwise; toggling switches height and button label |
| `Dashboard.ArticleDisplayAll` | test_python_files/dashboard_postgres_ver2.py:145-148 | the article table shows all five wanted columns, in order |
| `Dashboard.RecFrameWellFormed` | test_python_files/dashboard_postgres_ver2.py:175-183 | the stored `rec_df` is well formed |
| `Dashboard.RecFrameCells` | test_python_files/dashboard_postgres_ver2.py:175-183 | when the dicts carry no summary, every `rec_df` row has the recommendation's id and its article's summary, or a missing value |
| `Dashboard.RecTableShowsSummaries` | test_python_files/dashboard_postgres_ver2.py:175-207 | the displayed recommendation table lists every recommendation in order, with its id and the truncated summary of its article, or a missing value |
| `Dashboard.RecFrameSpec` | test_python_files/dashboard_postgres_ver2.py:175-183 | an empty list is stored unmerged and empty; otherwise, with unique article ids, each recommendation row is kept in order and gains its article's summary or a missing value |
| `Dashboard.Session.constructor` | test_python_files/dashboard_postgres_ver2.py:105-113 | the session starts collapsed, with nothing selected, no map and no `rec_df`, and satisfies its invariant |
| `Dashboard.Session.ToggleExpanded` | test_python_files/dashboard_postgres_ver2.py:128-129 | flips `expanded` and leaves the committed selection, map and `rec_df` alone |
| `Dashboard.Session.Observe` | test_python_files/dashboard_postgres_ver2.py:166-183 | a non-null id that differs from the committed one is committed, with a fresh map and `rec_df` of that id; each collaborator is called exactly once. Any other observation changes nothing and calls no one |
| `Dashboard.Session.Refresh` | test_python_files/dashboard_postgres_ver2.py:168-183 | commits the id, stores a fresh map of that article and its `rec_df`, and calls the map builder and the recommender once each |
| `Dashboard.Session.Rerun` | test_python_files/dashboard_postgres_ver2.py:159-183 | the observed id is that of the first selected row, or none; the refresh happens exactly when that id is non-null and new |
| `Dashboard.Session.RerunTwice` | test_python_files/dashboard_postgres_ver2.py:166-167 | two reruns with the same selection have exactly the effect of one: the same state, queries and calls |
| `Dashboard.Session.Panel` | test_python_files/dashboard_postgres_ver2.py:192-217 | the panel prompts exactly when nothing is selected; once something is, it shows the notice exactly when `rec_df` is empty, and otherwise the display table of `rec_df` |

## Left out

- Database I/O is not modelled: connections, cursors, `close`, and the statement text. Each table
  is a constant sequence of rows, and each query is the `Where` filter over it.
- The row order of the unordered queries is taken to be table order. This is one order the
  database may choose. `KeysIgnoreIdOrder` shows it does not depend on the order of the ids.
- PostGIS is not modelled: `ST_AsGeoJSON`, `ST_Transform`, `ST_X`/`ST_Y` and `ST_Intersects`.
  A geometry is its GeoJSON text. Organisation coordinates are given reals. The join is
  given as the table of intersecting pairs.
- `json.loads` is not modelled: a layer carries the GeoJSON text.
- `get_event_org` is not modelled: it is a parameterless read of `nk_org` that the rest of
  the core does not use.
- `get_random_color` is not modelled as random: the i-th layer added to a map gets `color(i)`,
  a function fixed when the geocoder is created.
- Folium and Streamlit rendering are not modelled: `st_folium`, the map panel, layout, captions,
  and the pie chart with `autopct_filter`. Also left out is the choice of `chart_df`
  (`dashboard_postgres_ver2.py:191-256`, outside the recommendation panel).
- `load_all_articles` and the `publish_date` sort are not modelled (`dashboard_postgres_ver2.py:73-99`).
  `df` is the article list in display order. The "No data" branch for an empty `df` is left
  out; with an empty `df` no row can be selected.
- `Recommendation.Recommender.GetSimilarArticles`: the ranking is external. The stub returns a
  fixed list per `(id, k)`. The assumed service contract (at most `k` results, the query id
  excluded) is neither required nor used.
- Exceptions are not modelled. The code commits `selected_id` before it calls
  `get_map_single` and `get_similar_articles` (`dashboard_postgres_ver2.py:168-175`), so a
  failing call would leave the new id with the old map and `rec_df`. The model has no failure path.
- `Dashboard.Session.Observe` and `Dashboard.Session.Refresh` leave out the second `is not None`
  test (`dashboard_postgres_ver2.py:170`). It always holds inside the first test.
- pandas details are not modelled: dtypes, NaN versus `None` (both are the missing value),
  index columns, and suffix clashes other than `summary`. A recommendation dict lists `id`
  first and then its other keys.
- `Frames.MergeRowForRow`, `Dashboard.RecFrameSpec`: the exact one-for-one form assumes article
  ids are unique, as for a primary key. Without that, the merge keeps at least one row per
  recommendation (`Frames.Expand`), and pandas repeats a row once per matching article.
- `Frames.LeftMerge`: its row contents are exact only when article ids are unique. In general it
  promises that no row is dropped, and `Frames.MergeRowsOrigin` that every row comes from a left row.
- `Frames.Expand`: it says each row carries a missing value or a matching article's summary. It
  does not say that the missing value appears only when no article matches, or that the
  matches come in article order. Those facts are in its definition only.
- `Frames.MergeRows`: its own contract bounds only the row count. Row contents are in
  `Frames.MergeRowForRow` (unique ids), `Frames.MergeRowsOrigin` and `Frames.MergeRowsAppend`.
- `Frames.LeftMergeWellFormed`, `Dashboard.RecFrameWellFormed`, `Dashboard.RecTableShowsSummaries`:
  these assume the recommendation dicts have no key `summary_x` or `summary_y`. pandas has no
  single well-formed result for a merge that would repeat a column name.
- `Dashboard.RecFrameCells`, `Dashboard.RecTableShowsSummaries`: they describe a non-empty
  recommendation list whose dicts have no `summary` key, so the merged `summary` column is the
  article's. An empty list is covered by `Dashboard.RecFrameSpec`, and a clash by `Frames.MergedColumnsShape`.
