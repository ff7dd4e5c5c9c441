/**
 * How the two callbacks of the map page compose. The positions that
 * `update_table_from_map` returns become the table's `selected_rows`, and a
 * change of `selected_rows` makes `update_map_from_table` redraw the map. A
 * selection the user makes in the table also invokes `update_table_from_map`,
 * with the table as trigger. Both callbacks are run on one snapshot: the
 * database is assumed not to change between their reads. The lemmas and
 * methods here show that the map and the table then denote the same entities.
 */
module Sync {

  import opened Options
  import opened GeoData
  import opened SingleMap

  /** Every position lies in the snapshot and is not negative: what the table emits. */
  predicate InRange(df: Snapshot, rows: seq<int>) {
    forall k :: 0 <= k < |rows| ==> 0 <= rows[k] < |df|
  }

  /** With unique ids, a row's id is selected exactly when its position is. */
  lemma RowIdSelected(df: Snapshot, rows: seq<int>, q: nat)
    requires UniqueIds(df) && InRange(df, rows) && q < |df|
    ensures df[q].id in RowIds(df, Some(rows)) <==> q in rows
  {
    if df[q].id in RowIds(df, Some(rows)) {
      var p :| p in rows && IsPosition(df, p) && ILoc(df, p).id == df[q].id;
      var k :| 0 <= k < |rows| && rows[k] == p;
      assert df[p].id == df[q].id;
    }
    if q in rows {
      assert IsPosition(df, q) && ILoc(df, q) == df[q];
    }
  }

  lemma RowIdsWithin(df: Snapshot, rows: seq<int>)
    ensures RowIds(df, Some(rows)) <= Ids(df)
  {
    forall y | y in RowIds(df, Some(rows)) ensures y in Ids(df) {
      var p :| p in rows && IsPosition(df, p) && ILoc(df, p).id == y;
      assert ILoc(df, p) in df;
    }
  }

  /**
   * A click on id `x`, translated back through the snapshot, toggles `x` in
   * the set of selected entities, and keeps the positions duplicate-free and
   * in range.
   */
  lemma ClickTogglesEntity(df: Snapshot, current: seq<int>, x: int)
    requires UniqueIds(df) && x in Ids(df)
    requires NoDuplicates(current) && InRange(df, current)
    ensures var next := Toggle(current, FirstRowIndex(df, x));
            NoDuplicates(next) && InRange(df, next) &&
            RowIds(df, Some(next)) == SymmetricDifference(RowIds(df, Some(current)), {x})
  {
    var p := FirstRowIndex(df, x);
    var next := Toggle(current, p);
    ToggleFlipsMembership(current, p);
    ToggleKeepsNoDuplicates(current, p);
    ToggleKeepsRange(current, p, |df|);
    RowIdsOfFlip(df, current, next, p);
  }

  /** Flipping the membership of position `p` flips exactly the membership of its id. */
  lemma RowIdsOfFlip(df: Snapshot, current: seq<int>, next: seq<int>, p: nat)
    requires UniqueIds(df) && InRange(df, current) && InRange(df, next) && p < |df|
    requires Elements(next) == SymmetricDifference(Elements(current), {p})
    ensures RowIds(df, Some(next)) == SymmetricDifference(RowIds(df, Some(current)), {df[p].id})
  {
    RowIdsWithin(df, next);
    RowIdsWithin(df, current);
    forall y | y in Ids(df)
      ensures y in RowIds(df, Some(next)) <==> y in SymmetricDifference(RowIds(df, Some(current)), {df[p].id})
    {
      var q := FirstRowIndex(df, y);
      RowIdSelected(df, next, q);
      RowIdSelected(df, current, q);
      assert q in next <==> q in Elements(next);
      assert q in current <==> q in Elements(current);
      PositionIdRoundTrip(df, p);
    }
    assert df[p] in df;
  }

  /**
   * `update_table_from_map` on successive clicks on the given ids. Each step
   * is that method's map-click result with `Some(selection)` as the current
   * selection, since `OrEmpty(Some(s)) == s`.
   */
  function ApplyClicks(df: Snapshot, selection: seq<int>, clicks: seq<int>): seq<int>
    requires forall k :: 0 <= k < |clicks| ==> clicks[k] in Ids(df)
    decreases |clicks|
  {
    if clicks == [] then selection
    else ApplyClicks(df, Toggle(selection, FirstRowIndex(df, clicks[0])), clicks[1..])
  }

  /** The entity set after toggling each clicked id in turn. */
  function ToggleAll(ids: set<int>, clicks: seq<int>): set<int>
    decreases |clicks|
  {
    if clicks == [] then ids else ToggleAll(SymmetricDifference(ids, {clicks[0]}), clicks[1..])
  }

  /** A run of map clicks selects the symmetric-difference accumulation of the clicked ids. */
  lemma {:induction false} MapClicksAccumulate(df: Snapshot, selection: seq<int>, clicks: seq<int>)
    requires UniqueIds(df) && NoDuplicates(selection) && InRange(df, selection)
    requires forall k :: 0 <= k < |clicks| ==> clicks[k] in Ids(df)
    ensures NoDuplicates(ApplyClicks(df, selection, clicks))
    ensures InRange(df, ApplyClicks(df, selection, clicks))
    ensures RowIds(df, Some(ApplyClicks(df, selection, clicks))) == ToggleAll(RowIds(df, Some(selection)), clicks)
    decreases |clicks|
  {
    if clicks != [] {
      ClickTogglesEntity(df, selection, clicks[0]);
      MapClicksAccumulate(df, Toggle(selection, FirstRowIndex(df, clicks[0])), clicks[1..]);
    }
  }

  lemma MapClickIsMapClick(points: seq<Point>)
    ensures IsMapClick(Triggered(MapClickProp), Some(ClickData(Some(points))))
  {
    assert OccursAt(MapClickProp, "geo-map", 0);
  }

  lemma AbsentCharRulesOut(s: string, sub: string, c: char)
    requires c in sub && c !in s
    ensures !Contains(s, sub)
  {
    var k :| 0 <= k < |sub| && sub[k] == c;
    forall i | 0 <= i && i + |sub| <= |s| ensures !OccursAt(s, sub, i) {
      assert s[i..i + |sub|][k] == s[i + k];
    }
  }

  /** The re-invocation caused by the table's own `selected_rows` is never taken for a map click. */
  lemma TableTriggerIsNoClick(clickData: Option<ClickData>)
    ensures !IsMapClick(Triggered(TableSelectionProp), clickData)
  {
    AbsentCharRulesOut(TableSelectionProp, "geo-map", 'p');
  }

  /**
   * A click on id `x`: `update_table_from_map` returns the new positions,
   * and the redraw they cause highlights exactly the entities at those
   * positions, which are the old entities with `x` toggled.
   * Should the new `selected_rows` invoke `update_table_from_map` again, with
   * the table as trigger, that call leaves the selection as it is.
   */
  method MapClickThenRedraw(df: Snapshot, currentSelection: Option<seq<int>>, x: int)
    returns (selection: seq<int>, echoed: seq<int>, fc: FeatureCollection)
    requires UniqueIds(df) && x in Ids(df)
    requires currentSelection.Some? ==> NoDuplicates(currentSelection.value) && InRange(df, currentSelection.value)
    ensures selection == Toggle(OrEmpty(currentSelection), FirstRowIndex(df, x))
    ensures NoDuplicates(selection) && InRange(df, selection)
    ensures RowIds(df, Some(selection)) == HighlightedIds(fc.features)
    ensures HighlightedIds(fc.features) == SymmetricDifference(RowIds(df, currentSelection), {x})
    ensures echoed == selection
  {
    var click := Some(ClickData(Some([Point(x)])));
    MapClickIsMapClick([Point(x)]);
    selection := UpdateTableFromMap(Triggered(MapClickProp), click, currentSelection, df);
    ClickTogglesEntity(df, OrEmpty(currentSelection), x);
    assert RowIds(df, Some(OrEmpty(currentSelection))) == RowIds(df, currentSelection);
    fc := UpdateMapFromTable(df, Some(selection));
    TableTriggerIsNoClick(click);
    echoed := UpdateTableFromMap(Triggered(TableSelectionProp), click, Some(selection), df);
  }

  /**
   * A selection made in the table: whatever stale click payload the map
   * still holds, the selection becomes the rows the table reports and the
   * map highlights exactly their entities.
   */
  method TableSelectThenRedraw(df: Snapshot, selectedRows: Option<seq<int>>, staleClick: Option<ClickData>)
    returns (selection: seq<int>, fc: FeatureCollection)
    requires selectedRows.Some? ==> ArePositions(df, selectedRows.value)
    ensures selection == OrEmpty(selectedRows)
    ensures HighlightedIds(fc.features) == RowIds(df, selectedRows)
  {
    TableTriggerIsNoClick(staleClick);
    selection := UpdateTableFromMap(Triggered(TableSelectionProp), staleClick, selectedRows, df);
    fc := UpdateMapFromTable(df, selectedRows);
  }

  /** The snapshot [10, 20, 30] of the scenarios below. */
  function ScenarioSnapshot(): Snapshot {
    [Row(10, "A", 1, 1.0, "{}"), Row(20, "B", 2, 2.0, "{}"), Row(30, "C", 3, 3.0, "{}")]
  }

  /** Rows 0 and 2 selected in the table denote the entities 10 and 30, in that order. */
  lemma ScenarioTableSelect()
    ensures SelectedIdsFromRows(ScenarioSnapshot(), Some([0, 2])) == Some([10, 30])
  {
    var df := ScenarioSnapshot();
    var r := SelectedIdsFromRows(df, Some([0, 2]));
    assert Truthy(Some([0, 2]));
    assert r.value[0] == 10 && r.value[1] == 30;
    assert r.value == [10, 30];
  }

  lemma ScenarioIdsPresent()
    ensures 10 in Ids(ScenarioSnapshot()) && 20 in Ids(ScenarioSnapshot())
  {
    var df := ScenarioSnapshot();
    assert df[0] in df && df[1] in df;
  }

  lemma ScenarioClickSteps()
    ensures ApplyClicks(ScenarioSnapshot(), [0, 2], [20]) == [0, 2, 1]
    ensures ApplyClicks(ScenarioSnapshot(), [0, 2], [20, 10]) == [2, 1]
  {
    var df := ScenarioSnapshot();
    ScenarioIdsPresent();
    assert FirstRowIndex(df, 10) == 0;
    assert FirstRowIndex(df, 20) == 1;
    assert Toggle([0, 2], 1) == [0, 2, 1];
    assert Toggle([0, 2, 1], 0) == [2, 1];
    assert ApplyClicks(df, [0, 2], [20, 10]) == ApplyClicks(df, [0, 2, 1], [10]);
  }

  lemma ScenarioRowsToIds()
    ensures SelectedIdsFromRows(ScenarioSnapshot(), Some([0, 2, 1])) == Some([10, 30, 20])
    ensures SelectedIdsFromRows(ScenarioSnapshot(), Some([2, 1])) == Some([30, 20])
  {
    var df := ScenarioSnapshot();
    var one := SelectedIdsFromRows(df, Some([0, 2, 1]));
    assert Truthy(Some([0, 2, 1]));
    assert one.value[0] == 10 && one.value[1] == 30 && one.value[2] == 20;
    assert one.value == [10, 30, 20];
    var two := SelectedIdsFromRows(df, Some([2, 1]));
    assert Truthy(Some([2, 1]));
    assert two.value[0] == 30 && two.value[1] == 20;
    assert two.value == [30, 20];
  }

  /** After rows 0 and 2, a click on 20 adds it at the end, a click on 10 then removes it. */
  lemma ScenarioClicks()
    ensures SelectedIdsFromRows(ScenarioSnapshot(), Some(ApplyClicks(ScenarioSnapshot(), [0, 2], [20]))) == Some([10, 30, 20])
    ensures SelectedIdsFromRows(ScenarioSnapshot(), Some(ApplyClicks(ScenarioSnapshot(), [0, 2], [20, 10]))) == Some([30, 20])
  {
    ScenarioClickSteps();
    ScenarioRowsToIds();
  }

  /** Click A, click B, click A: only B stays selected. */
  lemma ScenarioClickTwice()
    ensures RowIds(ScenarioSnapshot(), Some(ApplyClicks(ScenarioSnapshot(), [], [10, 20, 10]))) == {20}
  {
    var df := ScenarioSnapshot();
    assert df[0] in df && df[1] in df;
    assert FirstRowIndex(df, 10) == 0;
    assert FirstRowIndex(df, 20) == 1;
    assert Toggle([], 0) == [0];
    assert Toggle([0], 1) == [0, 1];
    assert Toggle([0, 1], 0) == [1];
    assert ApplyClicks(df, [], [10, 20, 10]) == ApplyClicks(df, [0], [20, 10]);
    assert ApplyClicks(df, [0], [20, 10]) == ApplyClicks(df, [0, 1], [10]);
    assert ApplyClicks(df, [0, 1], [10]) == [1];
    forall y ensures y in RowIds(df, Some([1])) <==> y == 20 {
      if y == 20 {
        assert 1 in [1] && ILoc(df, 1).id == 20;
      }
    }
  }
}
