/**
 * The selection synchronisation of the map page: labelling and feature
 * construction for the map figure, the table -> map translation of row
 * positions into ids, and the map -> table toggle of a clicked row.
 */
module SingleMap {

  import opened Options
  import opened Decimal
  import opened GeoData

  // ---------------------------------------------------------------------
  // Map figure
  // ---------------------------------------------------------------------

  /** The two values of the `selected` column that colours the map. */
  datatype Label = Selected | NotSelected

  datatype Properties = Properties(id: int, name: string, population: int, areaKm2: real, selected: Label)

  /** A GeoJSON feature; `geometry` is the row's geometry text, carried unparsed. */
  datatype Feature = Feature(geometry: string, id: string, properties: Properties)

  datatype FeatureCollection = FeatureCollection(features: seq<Feature>)

  /** Python truthiness of an optional list: `None` and `[]` are false. */
  predicate Truthy(xs: Option<seq<int>>) {
    xs.Some? && |xs.value| > 0
  }

  /** The values an optional list holds; none for `None`. */
  function Members(xs: Option<seq<int>>): set<int> {
    if xs.Some? then Elements(xs.value) else {}
  }

  /** The per-row `apply` that fills the `selected` column. */
  function LabelFor(id: int, selectedIds: Option<seq<int>>): (l: Label)
    ensures l == Selected <==> id in Members(selectedIds)
    ensures !Truthy(selectedIds) ==> l == NotSelected
  {
    if Truthy(selectedIds) && id in selectedIds.value then Selected else NotSelected
  }

  /** `f` is the feature built from `row`: same geometry, id text and properties. */
  predicate Describes(f: Feature, row: Row) {
    f.geometry == row.geojson && f.id == IntToString(row.id) &&
    f.properties.id == row.id && f.properties.name == row.name &&
    f.properties.population == row.population && f.properties.areaKm2 == row.areaKm2
  }

  /** The ids the map paints as selected. */
  function HighlightedIds(features: seq<Feature>): set<int> {
    set f | f in features && f.properties.selected == Selected :: f.properties.id
  }

  lemma HighlightedOfLabelled(features: seq<Feature>, df: Snapshot, chosen: set<int>)
    requires |features| == |df|
    requires forall i :: 0 <= i < |df| ==> features[i].properties.id == df[i].id
    requires forall i :: 0 <= i < |df| ==> (features[i].properties.selected == Selected <==> df[i].id in chosen)
    ensures HighlightedIds(features) == Ids(df) * chosen
  {
    forall x | x in HighlightedIds(features) ensures x in Ids(df) * chosen {
      var f :| f in features && f.properties.selected == Selected && f.properties.id == x;
      var k :| 0 <= k < |features| && features[k] == f;
      assert df[k] in df;
    }
    forall x | x in Ids(df) * chosen ensures x in HighlightedIds(features) {
      var r :| r in df && r.id == x;
      var k :| 0 <= k < |df| && df[k] == r;
      assert features[k] in features;
    }
  }

  /**
   * `create_map_figure`: one feature per row, in row order, labelled
   * `Selected` exactly when its id is among `selectedIds`. The snapshot is a
   * value, so the caller's frame cannot change.
   */
  method CreateMapFigure(df: Snapshot, selectedIds: Option<seq<int>>) returns (fc: FeatureCollection)
    ensures |fc.features| == |df|
    ensures forall i :: 0 <= i < |df| ==> Describes(fc.features[i], df[i])
    ensures forall i :: 0 <= i < |df| ==> ParseInt(fc.features[i].id) == df[i].id
    ensures forall i :: 0 <= i < |df| ==>
              (fc.features[i].properties.selected == Selected <==> df[i].id in Members(selectedIds))
    ensures HighlightedIds(fc.features) == Ids(df) * Members(selectedIds)
    ensures UniqueIds(df) ==> forall i, j :: 0 <= i < j < |df| ==> fc.features[i].id != fc.features[j].id
  {
    var selected := seq(|df|, i requires 0 <= i < |df| => LabelFor(df[i].id, selectedIds));
    var features: seq<Feature> := [];
    for i := 0 to |df|
      invariant |features| == i
      invariant forall k :: 0 <= k < i ==> Describes(features[k], df[k])
      invariant forall k :: 0 <= k < i ==> features[k].properties.selected == selected[k]
    {
      var row := df[i];
      var feature := Feature(row.geojson, IntToString(row.id),
                             Properties(row.id, row.name, row.population, row.areaKm2, selected[i]));
      features := features + [feature];
    }
    forall i | 0 <= i < |df|
      ensures features[i].properties.selected == Selected <==> df[i].id in Members(selectedIds)
    {
      assert features[i].properties.selected == LabelFor(df[i].id, selectedIds);
    }
    FeatureIdsReadBack(features, df);
    HighlightedOfLabelled(features, df, Members(selectedIds));
    fc := FeatureCollection(features);
  }

  /** Features that describe their rows carry id texts that read back to the ids, distinct for distinct ids. */
  lemma FeatureIdsReadBack(features: seq<Feature>, df: Snapshot)
    requires |features| == |df|
    requires forall i :: 0 <= i < |df| ==> Describes(features[i], df[i])
    ensures forall i :: 0 <= i < |df| ==> ParseInt(features[i].id) == df[i].id
    ensures UniqueIds(df) ==> forall i, j :: 0 <= i < j < |df| ==> features[i].id != features[j].id
  {
    forall i | 0 <= i < |df| ensures ParseInt(features[i].id) == df[i].id {
      ParseIntToString(df[i].id);
    }
    forall i, j | 0 <= i < j < |df| && UniqueIds(df) ensures features[i].id != features[j].id {
      IntToStringInjective(df[i].id, df[j].id);
    }
  }

  // ---------------------------------------------------------------------
  // Table -> map
  // ---------------------------------------------------------------------

  predicate ArePositions(df: Snapshot, rows: seq<int>) {
    forall k :: 0 <= k < |rows| ==> IsPosition(df, rows[k])
  }

  /** `[df.iloc[i]['id'] for i in rows]`. */
  function IdsAt(df: Snapshot, rows: seq<int>): (ids: seq<int>)
    requires ArePositions(df, rows)
    ensures |ids| == |rows|
    ensures forall k :: 0 <= k < |rows| ==> ids[k] == ILoc(df, rows[k]).id
  {
    if rows == [] then [] else [ILoc(df, rows[0]).id] + IdsAt(df, rows[1..])
  }

  /** The ids `update_map_from_table` hands to the figure: `None` when no row is selected. */
  function SelectedIdsFromRows(df: Snapshot, selectedRows: Option<seq<int>>): (selectedIds: Option<seq<int>>)
    requires selectedRows.Some? ==> ArePositions(df, selectedRows.value)
    ensures selectedIds.None? <==> !Truthy(selectedRows)
    ensures selectedIds.Some? ==>
              |selectedIds.value| == |selectedRows.value| &&
              forall k :: 0 <= k < |selectedRows.value| ==> selectedIds.value[k] == ILoc(df, selectedRows.value[k]).id
  {
    if Truthy(selectedRows) then Some(IdsAt(df, selectedRows.value)) else None
  }

  /** The ids of the rows at the given positions. */
  function RowIds(df: Snapshot, selectedRows: Option<seq<int>>): set<int> {
    if selectedRows.None? then {}
    else set p | p in selectedRows.value && IsPosition(df, p) :: ILoc(df, p).id
  }

  lemma MembersOfSelectedIds(df: Snapshot, selectedRows: Option<seq<int>>)
    requires selectedRows.Some? ==> ArePositions(df, selectedRows.value)
    ensures Members(SelectedIdsFromRows(df, selectedRows)) == RowIds(df, selectedRows)
    ensures RowIds(df, selectedRows) <= Ids(df)
  {
    var ids := SelectedIdsFromRows(df, selectedRows);
    if selectedRows.Some? {
      var rows := selectedRows.value;
      forall x | x in Members(ids) ensures x in RowIds(df, selectedRows) {
        var k :| 0 <= k < |ids.value| && ids.value[k] == x;
        assert rows[k] in rows;
      }
      forall x | x in RowIds(df, selectedRows) ensures x in Members(ids) {
        var p :| p in rows && IsPosition(df, p) && ILoc(df, p).id == x;
        var k :| 0 <= k < |rows| && rows[k] == p;
        assert ids.value[k] == x;
      }
    }
  }

  /**
   * `update_map_from_table`: the figure highlights exactly the entities at
   * the selected row positions of the freshly read snapshot `df`.
   */
  method UpdateMapFromTable(df: Snapshot, selectedRows: Option<seq<int>>) returns (fc: FeatureCollection)
    requires selectedRows.Some? ==> ArePositions(df, selectedRows.value)
    ensures |fc.features| == |df|
    ensures forall i :: 0 <= i < |df| ==> Describes(fc.features[i], df[i])
    ensures forall i :: 0 <= i < |df| ==>
              (fc.features[i].properties.selected == Selected <==> df[i].id in RowIds(df, selectedRows))
    ensures HighlightedIds(fc.features) == RowIds(df, selectedRows)
    ensures !Truthy(selectedRows) ==> HighlightedIds(fc.features) == {}
  {
    var selectedIds := SelectedIdsFromRows(df, selectedRows);
    fc := CreateMapFigure(df, selectedIds);
    MembersOfSelectedIds(df, selectedRows);
  }

  // ---------------------------------------------------------------------
  // Map -> table
  // ---------------------------------------------------------------------

  /** Which input fired the callback: `callback_context.triggered[0]['prop_id']`, if any. */
  datatype Trigger = NotTriggered | Triggered(propId: string)

  /** One clicked point; `location` is the feature's id as the map reports it. */
  datatype Point = Point(location: int)

  /** The map's click payload; `points` is `None` when the key is absent. */
  datatype ClickData = ClickData(points: Option<seq<Point>>)

  const MapClickProp: string := "geo-map.clickData"
  const TableSelectionProp: string := "geo-table.selected_rows"

  /** `sub` stands in `s` starting at index `i`. */
  predicate OccursAt(s: string, sub: string, i: int) {
    0 <= i && i + |sub| <= |s| && s[i..i + |sub|] == sub
  }

  lemma OccursAtTail(s: string, sub: string, i: int)
    requires 0 < i && |s| > 0
    ensures OccursAt(s, sub, i) <==> OccursAt(s[1..], sub, i - 1)
  {
    if i + |sub| <= |s| {
      assert s[i..i + |sub|] == s[1..][i - 1..i - 1 + |sub|];
    }
  }

  /** Python's `sub in s` on strings. */
  function Contains(s: string, sub: string): (b: bool)
    ensures b <==> exists i :: OccursAt(s, sub, i)
    decreases |s|
  {
    if |s| < |sub| then false
    else if s[..|sub|] == sub then assert OccursAt(s, sub, 0); true
    else
      assert !OccursAt(s, sub, 0) by { assert s[0..|sub|] == s[..|sub|]; }
      assert Contains(s[1..], sub) <==> exists i :: OccursAt(s, sub, i) by {
        if Contains(s[1..], sub) {
          var j :| OccursAt(s[1..], sub, j);
          OccursAtTail(s, sub, j + 1);
        }
        if exists i :: OccursAt(s, sub, i) {
          var i :| OccursAt(s, sub, i);
          OccursAtTail(s, sub, i);
        }
      }
      Contains(s[1..], sub)
  }

  /** The guard of line 176: a map-originated event with a `points` entry. */
  function IsMapClick(trigger: Trigger, clickData: Option<ClickData>): (b: bool)
    ensures b <==> trigger.Triggered? && (exists i :: OccursAt(trigger.propId, "geo-map", i)) &&
                   clickData.Some? && clickData.value.points.Some?
  {
    trigger.Triggered? && Contains(trigger.propId, "geo-map") &&
    clickData.Some? && clickData.value.points.Some?
  }

  /** `current_selection or []`. */
  function OrEmpty(selection: Option<seq<int>>): (r: seq<int>)
    ensures selection.Some? ==> r == selection.value
    ensures selection.None? ==> r == []
  {
    if Truthy(selection) then selection.value else []
  }

  /** Position of the first occurrence of `x`. */
  function IndexOf(s: seq<int>, x: int): (i: nat)
    requires x in s
    ensures i < |s| && s[i] == x && x !in s[..i]
  {
    if s[0] == x then 0
    else
      assert s == [s[0]] + s[1..];
      var j := IndexOf(s[1..], x);
      assert s[..j + 1] == [s[0]] + s[1..][..j];
      1 + j
  }

  /** Python's `list.remove(x)`: drops the first occurrence of `x`. */
  function RemoveFirst(s: seq<int>, x: int): (r: seq<int>)
    requires x in s
    ensures r == s[..IndexOf(s, x)] + s[IndexOf(s, x) + 1..]
  {
    if s[0] == x then s[1..]
    else
      assert s == [s[0]] + s[1..];
      [s[0]] + RemoveFirst(s[1..], x)
  }

  /** The entries of `s` other than `x`, in their order. */
  function Without(s: seq<int>, x: int): seq<int> {
    if s == [] then [] else (if s[0] == x then [] else [s[0]]) + Without(s[1..], x)
  }

  lemma {:induction false} WithoutConcat(a: seq<int>, b: seq<int>, x: int)
    ensures Without(a + b, x) == Without(a, x) + Without(b, x)
  {
    if a != [] {
      assert (a + b)[1..] == a[1..] + b;
      WithoutConcat(a[1..], b, x);
    } else {
      assert a + b == b;
    }
  }

  lemma WithoutRemoveFirst(s: seq<int>, x: int)
    requires x in s
    ensures Without(RemoveFirst(s, x), x) == Without(s, x)
  {
    var i := IndexOf(s, x);
    assert s == s[..i] + ([x] + s[i + 1..]);
    WithoutConcat(s[..i], [x] + s[i + 1..], x);
    WithoutConcat([x], s[i + 1..], x);
    WithoutConcat(s[..i], s[i + 1..], x);
  }

  /**
   * The selection after a click on the row at position `p`: one entry `p`
   * leaves or joins it, and every other entry keeps its relative order.
   */
  function Toggle(selection: seq<int>, p: int): (r: seq<int>)
    ensures |r| == if p in selection then |selection| - 1 else |selection| + 1
    ensures p !in selection ==> p in r
  {
    if p in selection then RemoveFirst(selection, p) else selection + [p]
  }

  /** A toggle changes only entries equal to `p`: the others keep their relative order. */
  lemma ToggleKeepsOthersInOrder(selection: seq<int>, p: int)
    ensures Without(Toggle(selection, p), p) == Without(selection, p)
  {
    if p in selection {
      WithoutRemoveFirst(selection, p);
    } else {
      WithoutConcat(selection, [p], p);
      assert Without([p], p) == [];
    }
  }

  predicate NoDuplicates(s: seq<int>) {
    forall i, j :: 0 <= i < j < |s| ==> s[i] != s[j]
  }

  function Elements(s: seq<int>): set<int> {
    set x | x in s
  }

  function SymmetricDifference(a: set<int>, b: set<int>): set<int> {
    (a - b) + (b - a)
  }

  lemma RemovedAt(s: seq<int>, i: nat, k: nat)
    requires i < |s| && k < |s| - 1
    ensures (s[..i] + s[i + 1..])[k] == if k < i then s[k] else s[k + 1]
  {
  }

  /** On a duplicate-free selection, a toggle flips exactly the membership of `p`. */
  lemma ToggleFlipsMembership(s: seq<int>, p: int)
    requires NoDuplicates(s)
    ensures Elements(Toggle(s, p)) == SymmetricDifference(Elements(s), {p})
  {
    if p in s {
      var i := IndexOf(s, p);
      var r := s[..i] + s[i + 1..];
      assert Toggle(s, p) == r;
      forall x ensures x in r <==> x in s && x != p {
        if x in r {
          var k :| 0 <= k < |r| && r[k] == x;
          RemovedAt(s, i, k);
          var k' := if k < i then k else k + 1;
          assert s[k'] == x && k' != i;
        }
        if x in s && x != p {
          var k :| 0 <= k < |s| && s[k] == x;
          var k' := if k < i then k else k - 1;
          RemovedAt(s, i, k');
          assert r[k'] == x;
        }
      }
    }
  }

  lemma RemovedAtKeepsNoDuplicates(s: seq<int>, i: nat)
    requires NoDuplicates(s) && i < |s|
    ensures NoDuplicates(s[..i] + s[i + 1..])
  {
    var r := s[..i] + s[i + 1..];
    forall a, b | 0 <= a < b < |r| ensures r[a] != r[b] {
      RemovedAt(s, i, a);
      RemovedAt(s, i, b);
      var a' := if a < i then a else a + 1;
      var b' := if b < i then b else b + 1;
      assert a' < b' && r[a] == s[a'] && r[b] == s[b'];
    }
  }

  lemma AppendKeepsNoDuplicates(s: seq<int>, p: int)
    requires NoDuplicates(s) && p !in s
    ensures NoDuplicates(s + [p])
  {
    var r := s + [p];
    forall a, b | 0 <= a < b < |r| ensures r[a] != r[b] {
      assert r[a] == s[a];
    }
  }

  lemma ToggleKeepsNoDuplicates(s: seq<int>, p: int)
    requires NoDuplicates(s)
    ensures NoDuplicates(Toggle(s, p))
  {
    if p in s {
      var i := IndexOf(s, p);
      assert Toggle(s, p) == s[..i] + s[i + 1..];
      RemovedAtKeepsNoDuplicates(s, i);
    } else {
      AppendKeepsNoDuplicates(s, p);
    }
  }

  /** Clicking the same row twice restores the selection as a set, and exactly when the row was not selected. */
  lemma ToggleTwice(s: seq<int>, p: int)
    requires NoDuplicates(s)
    ensures Elements(Toggle(Toggle(s, p), p)) == Elements(s)
    ensures p !in s ==> Toggle(Toggle(s, p), p) == s
  {
    ToggleFlipsMembership(s, p);
    ToggleKeepsNoDuplicates(s, p);
    ToggleFlipsMembership(Toggle(s, p), p);
    if p !in s {
      assert IndexOf(s + [p], p) == |s|;
    }
  }

  /** A toggle of an in-range position keeps every position in range. */
  lemma ToggleKeepsRange(s: seq<int>, p: int, n: int)
    requires forall k :: 0 <= k < |s| ==> 0 <= s[k] < n
    requires 0 <= p < n
    ensures forall k :: 0 <= k < |Toggle(s, p)| ==> 0 <= Toggle(s, p)[k] < n
  {
    if p in s {
      var i := IndexOf(s, p);
      var r := s[..i] + s[i + 1..];
      assert Toggle(s, p) == r;
      forall k | 0 <= k < |r| ensures 0 <= r[k] < n {
        RemovedAt(s, i, k);
      }
    }
  }

  /** A click payload whose first point names an id of the snapshot. */
  predicate ClickResolves(df: Snapshot, clickData: ClickData) {
    clickData.points.Some? && |clickData.points.value| > 0 &&
    clickData.points.value[0].location in Ids(df)
  }

  /**
   * `update_table_from_map`: a map click toggles the position of the clicked
   * row in the selection; every other invocation returns the selection as it
   * stands (`[]` for `None`). The source raises on a click whose id is not in
   * the snapshot, hence the precondition.
   */
  method UpdateTableFromMap(trigger: Trigger, clickData: Option<ClickData>,
                            currentSelection: Option<seq<int>>, df: Snapshot)
    returns (selection: seq<int>)
    requires IsMapClick(trigger, clickData) ==> ClickResolves(df, clickData.value)
    ensures !IsMapClick(trigger, clickData) ==> selection == OrEmpty(currentSelection)
    ensures IsMapClick(trigger, clickData) ==>
              var rowIndex := FirstRowIndex(df, clickData.value.points.value[0].location);
              selection == Toggle(OrEmpty(currentSelection), rowIndex)
  {
    if trigger.NotTriggered? {
      return OrEmpty(currentSelection);
    }
    var propId := trigger.propId;
    if Contains(propId, "geo-map") && clickData.Some? && clickData.value.points.Some? {
      var clickedId := clickData.value.points.value[0].location;
      var rowIndex := FirstRowIndex(df, clickedId);
      var current: seq<int>;
      if currentSelection.None? {
        current := [];
      } else {
        current := currentSelection.value;
      }
      if rowIndex in current {
        current := RemoveFirst(current, rowIndex);
      } else {
        current := current + [rowIndex];
      }
      return current;
    }
    return OrEmpty(currentSelection);
  }
}
