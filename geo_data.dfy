/**
 * The geospatial snapshot that every callback reads afresh from the
 * database: an ordered sequence of rows. The frame's index is the default
 * 0..n-1, so a row's index label is its position.
 */
module GeoData {

  /** One region: its id, name, attributes and GeoJSON geometry text. */
  datatype Row = Row(id: int, name: string, population: int, areaKm2: real, geojson: string)

  type Snapshot = seq<Row>

  function Ids(df: Snapshot): set<int> {
    set r | r in df :: r.id
  }

  predicate UniqueIds(df: Snapshot) {
    forall i, j :: 0 <= i < j < |df| ==> df[i].id != df[j].id
  }

  /** A position `df.iloc` accepts: Python counts negative ones from the end. */
  predicate IsPosition(df: Snapshot, p: int) {
    -|df| <= p < |df|
  }

  /** `df.iloc[p]`. */
  function ILoc(df: Snapshot, p: int): (r: Row)
    requires IsPosition(df, p)
    ensures r in df
    ensures 0 <= p ==> r == df[p]
    ensures p < 0 ==> r == df[|df| + p]
  {
    if p >= 0 then df[p] else df[|df| + p]
  }

  lemma IdsTail(df: Snapshot, id: int)
    requires id in Ids(df) && df[0].id != id
    ensures id in Ids(df[1..])
  {
    var r :| r in df && r.id == id;
    var k :| 0 <= k < |df| && df[k] == r;
    assert df[1..][k - 1] == r;
  }

  /** `df[df['id'] == id].index[0]`: the position of the first row with this id. */
  function FirstRowIndex(df: Snapshot, id: int): (p: nat)
    requires id in Ids(df)
    ensures p < |df| && df[p].id == id
    ensures forall q :: 0 <= q < p ==> df[q].id != id
  {
    if df[0].id == id then 0
    else
      IdsTail(df, id);
      1 + FirstRowIndex(df[1..], id)
  }

  /** With unique ids, looking up a row's id finds that row again. */
  lemma PositionIdRoundTrip(df: Snapshot, p: nat)
    requires UniqueIds(df) && p < |df|
    ensures FirstRowIndex(df, df[p].id) == p
  {
    assert df[p] in df;
  }
}
