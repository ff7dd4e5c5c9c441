# Table and map selection synchronisation of a Dash geospatial page

This project models the one page of the dashboard that has real logic: the
map page (`src/pages/single_map.py`). That page shows a set of regions
twice: as rows of a table and as polygons on a map. Selecting rows in the
table highlights their polygons. Clicking a polygon toggles its row in the
table's selection. The model covers the three pieces that keep the two views
consistent:

- **Highlighting** (`create_map_figure`). Each row is labelled `Selected` or
  `Not Selected`, and one GeoJSON feature is built per row.
- **Table → map** (`update_map_from_table`). The table's selected row
  positions become entity ids through the current snapshot order, and the map
  is redrawn with those ids highlighted.
- **Map → table** (`update_table_from_map`). This is a state transition on
  the table's `selected_rows`. A map click removes the clicked row's position
  if it is present and appends it if it is absent. Every other invocation
  leaves the selection as it is.

The module `Sync` composes the callbacks as Dash wires them. Its lemmas show
that after a map click the redrawn map highlights the old entity set with the
clicked id toggled. They also show that a run of clicks accumulates as a
symmetric difference. A call triggered by the table's `selected_rows` changes
nothing, whether it comes from the user's own table selection or, should Dash
make one, from a re-invocation after a map click.

Files and modules:

| file | module | models |
|---|---|---|
| `options.dfy` | `Options` | Python's `None` or a value |
| `decimal.dfy` | `Decimal` | `str(id)` for a feature's id and its inverse reading |
| `geo_data.dfy` | `GeoData` | a snapshot row, `df.iloc[p]`, `df[df['id'] == x].index[0]` |
| `single_map.dfy` | `SingleMap` | labelling, features, both callbacks, the toggle |
| `sync.dfy` | `Sync` | the two callbacks composed, click runs, worked scenarios |

Assumptions. They are the ones the code relies on without checking them.

- The frame has the default index `0..n-1`, so a row's index label (line
  185) is its position (line 154). The model reads both as positions.
- The snapshot is read fresh from the database at every callback. The model
  takes it as the parameter `df`. The composition results also assume that
  ids are unique in the snapshot (`UniqueIds`).
- The snapshot is the same at every read: the layout's read that fills the
  table (line 78), and the reads in `update_map_from_table` (line 151) and
  `update_table_from_map` (line 184). `Sync` runs both callbacks on one `df`,
  and its "same entities in both views" results rely on the row order and the
  ids not changing between those reads.
- A map click's `location` is already an integer, so `int(...)` at line
  181 is the identity.

What the code does at its edges:

- A click on an id that is not in the snapshot raises at line 185.
  `UpdateTableFromMap` therefore requires the clicked id to be in the
  snapshot (`ClickResolves`). An empty `points` list raises at line 178 and
  falls under the same precondition.
- The synchronised selection is a list of row positions, held by the table
  as `selected_rows`. A removal drops only the first occurrence, and an
  addition goes to the end. "Same entities in both views" holds as sets of
  ids, proved under the duplicate-free and in-range conditions that the
  toggle itself preserves.

## Model

| member | source | states |
|---|---|---|
| `Decimal.NatToString` | src/pages/single_map.py:24 | the text of a natural number is non-empty, made of decimal digits only, with no leading zero unless the number is 0 |
| `Decimal.IntToString` | src/pages/single_map.py:24 | `str(id)` is non-empty and starts with `-` exactly when the id is negative |
| `Decimal.ParseNatToString` | src/pages/single_map.py:24 | reading the digits of a natural number back gives the number |
| `Decimal.ParseIntToString` | src/pages/single_map.py:24 | reading `str(id)` back gives the id: a feature's text id loses nothing |
| `Decimal.IntToStringInjective` | src/pages/single_map.py:24 | distinct ids give distinct feature id texts |
| `GeoData.ILoc` | src/pages/single_map.py:154 | `df.iloc[p]` is a row of the snapshot: row `p` for p ≥ 0, row `n+p` for a negative p counted from the end |
| `GeoData.FirstRowIndex` | src/pages/single_map.py:185 | for an id that occurs in the snapshot, the position of its first row: that row has the id and no earlier row has it |
| `GeoData.PositionIdRoundTrip` | src/pages/single_map.py:154-185 | with unique ids, looking up the id of row p gives p back |
| `SingleMap.LabelFor` | src/pages/single_map.py:15 | a row is `Selected` iff its id is among the selected ids; with `None` or `[]` every row is `Not Selected` |
| `SingleMap.HighlightedOfLabelled` | src/pages/single_map.py:15-33 | labelling the rows by a set of chosen ids makes the highlighted ids exactly the snapshot's ids that are chosen |
| `SingleMap.CreateMapFigure` | src/pages/single_map.py:11-38 | one feature per row in row order, each carrying its row's geometry, `str(id)` (which reads back to the id) and properties; `selected` iff the id is selected; highlighted ids = snapshot ids ∩ selected ids; unique row ids give unique feature ids |
| `SingleMap.FeatureIdsReadBack` | src/pages/single_map.py:24 | features that describe their rows carry id texts that read back to the row ids, and distinct ids give distinct texts |
| `SingleMap.IdsAt` | src/pages/single_map.py:154 | the list comprehension gives, position for position, the id of `df.iloc[p]`, with as many ids as positions |
| `SingleMap.SelectedIdsFromRows` | src/pages/single_map.py:153-156 | `None` exactly when no row is selected; otherwise the ids of the selected rows, in order and of the same length |
| `SingleMap.MembersOfSelectedIds` | src/pages/single_map.py:153-156 | the selected ids, as a set, are the ids at the selected positions, all drawn from the snapshot |
| `SingleMap.UpdateMapFromTable` | src/pages/single_map.py:149-158 | the redrawn map has one feature per row, each labelled `Selected` exactly when its id is the id of a selected position; so it highlights exactly the entities at the selected positions, and none when no row is selected |
| `SingleMap.Contains` | src/pages/single_map.py:176 | the substring test `'geo-map' in trigger` holds iff the text occurs at some index in the trigger |
| `SingleMap.IsMapClick` | src/pages/single_map.py:170-176 | the guard holds iff the callback was triggered, `geo-map` occurs at some index of the trigger's `prop_id`, and a click payload with a `points` entry is present |
| `SingleMap.OrEmpty` | src/pages/single_map.py:171 | `current_selection or []` is the current list, or `[]` for `None` |
| `SingleMap.IndexOf` | src/pages/single_map.py:192-193 | the first index where the position occurs |
| `SingleMap.RemoveFirst` | src/pages/single_map.py:193 | `list.remove(p)` deletes exactly the first occurrence of `p` and keeps the rest in order |
| `SingleMap.Toggle` | src/pages/single_map.py:191-195 | a toggle shortens the selection by one when the clicked position is present and lengthens it by one, now holding the position, when it is absent; its other promises are the lemmas `ToggleKeepsOthersInOrder`, `ToggleFlipsMembership`, `ToggleKeepsNoDuplicates`, `ToggleTwice` and `ToggleKeepsRange` |
| `SingleMap.ToggleKeepsOthersInOrder` | src/pages/single_map.py:191-195 | a toggle touches only entries equal to the clicked position: all other entries keep their relative order |
| `SingleMap.ToggleFlipsMembership` | src/pages/single_map.py:191-195 | on a duplicate-free selection, a toggle flips the membership of the clicked position and of nothing else |
| `SingleMap.ToggleKeepsNoDuplicates` | src/pages/single_map.py:191-195 | a toggle keeps a duplicate-free selection duplicate-free |
| `SingleMap.ToggleTwice` | src/pages/single_map.py:191-195 | toggling the same position twice gives the original selection as a set, and exactly the original list when the position was absent |
| `SingleMap.ToggleKeepsRange` | src/pages/single_map.py:185-195 | toggling an in-range position keeps every position of the selection in range |
| `SingleMap.UpdateTableFromMap` | src/pages/single_map.py:167-199 | with no trigger, a non-map trigger or a payload without `points`, the selection is returned unchanged (`[]` for `None`); a map click on a snapshot id toggles the position of that id's first row in the selection (`None` taken as `[]`) |
| `Sync.RowIdSelected` | src/pages/single_map.py:154 | with unique ids, a row's id is among the selected ids exactly when the row's position is selected |
| `Sync.ClickTogglesEntity` | src/pages/single_map.py:181-195 | with unique ids, a click on id x, translated back through the snapshot, gives the old id set with x toggled, and keeps the positions duplicate-free and in range |
| `Sync.MapClicksAccumulate` | src/pages/single_map.py:161-199 | a run of map clicks selects the symmetric-difference accumulation of the clicked ids, and keeps the selection duplicate-free and in range |
| `Sync.MapClickIsMapClick` | src/pages/single_map.py:163-178 | a click event `geo-map.clickData` with points passes the guard of line 176 |
| `Sync.TableTriggerIsNoClick` | src/pages/single_map.py:164-199 | the re-invocation triggered by `geo-table.selected_rows` never passes the map-click guard, whatever click payload is stale |
| `Sync.MapClickThenRedraw` | src/pages/single_map.py:144-199 | a map click returns the toggle of the clicked id's row in the current selection (`None` taken as `[]`), still duplicate-free and in range; the redraw it causes highlights exactly the entities at the new positions, which are the old entity set with the clicked id toggled; should the new `selected_rows` invoke `update_table_from_map` again, that call leaves the selection unchanged |
| `Sync.TableSelectThenRedraw` | src/pages/single_map.py:144-199 | the rows the user selects in the table stay the selection unchanged, whatever stale click payload the map holds, and the map then highlights exactly the entities of those rows |
| `Sync.ScenarioTableSelect` | src/pages/single_map.py:153-154 | rows 0 and 2 of the snapshot [10, 20, 30] give the ids [10, 30] |
| `Sync.ScenarioClicks` | src/pages/single_map.py:185-195 | a click on 20 then gives [10, 30, 20], and a further click on 10 gives [30, 20] |
| `Sync.ScenarioClickTwice` | src/pages/single_map.py:185-195 | from an empty selection, clicks on 10, 20, 10 leave only 20 selected |

## Left out

- `px.choropleth_map` and `fig.update_layout` (lines 41-71) belong to a rendering library. The figure is modelled only as its feature collection and its labels.
- `json.loads` of the geometry (line 20) is a foreign parse. The feature carries the geometry text unchanged. The constant `"type"` members of the feature and of the collection are omitted.
- `read_geo_data_from_db` is database I/O. Each callback takes the snapshot it would read as the parameter `df`. `src/lib.py` does not define `read_geo_data_from_db`, so it is not part of this model.
- `callback_context` and the Dash callback registration are framework code. The model replaces them with an explicit `Trigger` value that holds the first triggered `prop_id`. `Sync` composes the two callbacks in the order Dash runs them.
- `int(clicked_id)` (line 181): the click's location is modelled as an integer already.
- The population is an integer and the area a `real`. Floating-point behaviour of the area is not modelled; the area is only copied.
- SingleMap.UpdateTableFromMap: the source mutates the incoming list with `.remove` and `.append` and returns the same list object. The model returns the new contents as a value, so aliasing of that list is not captured. Dash builds a fresh list for every invocation, so nothing else observes the mutation.
- GeoData.FirstRowIndex, SingleMap.UpdateTableFromMap: a click whose id is not in the snapshot, or whose `points` list is empty, raises in the source. The model makes both preconditions instead of modelling the exception.
- SingleMap.SelectedIdsFromRows: a position outside `-n..n-1` raises in `df.iloc`. That is a precondition here, and the table never emits one.
- The `layout` functions of all pages, `src/pages/single_dataframe.py` (grouping and currency formatting on floats), `src/pages/single_editor.py` (`save_changes` forwards rows to a storage function, `save_data_to_db`, that `src/lib.py` does not define; there is no per-column type coercion) and `src/main.py` (server start-up) hold no selection logic and are not part of this model.
