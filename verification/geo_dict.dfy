/**
  The `result` dict that `Geocoder.get_geometry` fills from the geometry rows:
  a Python dict keeps insertion order, and assigning to an existing key replaces
  its value in place. Modelled as a list of entries with distinct keys.
*/
module GeoDicts {
  import opened Wrappers
  import opened Seqs
  import opened Store

  datatype Entry = Entry(key: string, geometry: GeoJson)

  /** An insertion-ordered dict from location key to geometry. */
  type GeoDict = seq<Entry>

  function Keys(d: GeoDict): (ks: seq<string>)
    ensures |ks| == |d|
    ensures forall i :: 0 <= i < |d| ==> ks[i] == d[i].key
  {
    if d == [] then [] else [d[0].key] + Keys(d[1..])
  }

  /** `d.get(k)`. */
  function Get(d: GeoDict, k: string): Option<GeoJson> {
    if d == [] then None
    else if d[0].key == k then Some(d[0].geometry)
    else Get(d[1..], k)
  }

  /** `d[k] = v`: a new key goes last, an existing key keeps its place and takes the new value. */
  function Put(d: GeoDict, k: string, v: GeoJson): (r: GeoDict)
    ensures Keys(r) == if k in Keys(d) then Keys(d) else Keys(d) + [k]
    ensures Get(r, k) == Some(v)
    ensures forall k' :: k' != k ==> Get(r, k') == Get(d, k')
  {
    if d == [] then [Entry(k, v)]
    else if d[0].key == k then [Entry(k, v)] + d[1..]
    else
      var r := [d[0]] + Put(d[1..], k, v);
      assert Keys(d) == [d[0].key] + Keys(d[1..]);
      assert r[1..] == Put(d[1..], k, v);
      r
  }

  /** The dict after the loop `for row in rows: result[row["event_loc"]] = geo` has run over `rows`. */
  function DictOf(rows: seq<GeoRow>): GeoDict {
    if rows == [] then []
    else
      var last := rows[|rows| - 1];
      Put(DictOf(rows[..|rows| - 1]), last.eventLoc, last.geojson)
  }

  /** The `event_loc` column of the rows, in row order. */
  function RowKeys(rows: seq<GeoRow>): (ks: seq<string>)
    ensures |ks| == |rows|
    ensures forall i :: 0 <= i < |rows| ==> ks[i] == rows[i].eventLoc
  {
    if rows == [] then [] else RowKeys(rows[..|rows| - 1]) + [rows[|rows| - 1].eventLoc]
  }

  /** The geometry of the last row whose key is `k`, if any. */
  function LastValue(rows: seq<GeoRow>, k: string): Option<GeoJson> {
    if rows == [] then None
    else if rows[|rows| - 1].eventLoc == k then Some(rows[|rows| - 1].geojson)
    else LastValue(rows[..|rows| - 1], k)
  }

  /** The dict's keys are the rows' keys, once each, in first-seen order. */
  lemma {:induction false} DictKeys(rows: seq<GeoRow>)
    ensures Keys(DictOf(rows)) == Dedup(RowKeys(rows))
  {
    if rows != [] {
      var p := rows[..|rows| - 1];
      DictKeys(p);
      assert RowKeys(rows)[..|rows| - 1] == RowKeys(p);
    }
  }

  /** A key is in the dict exactly when some row carries it. */
  lemma DictKeyMember(rows: seq<GeoRow>, x: string)
    ensures x in Keys(DictOf(rows)) <==> exists j :: 0 <= j < |rows| && rows[j].eventLoc == x
  {
    DictKeys(rows);
    if x in Keys(DictOf(rows)) {
      assert x in RowKeys(rows);
      var j :| 0 <= j < |rows| && RowKeys(rows)[j] == x;
    }
    if exists j :: 0 <= j < |rows| && rows[j].eventLoc == x {
      var j :| 0 <= j < |rows| && rows[j].eventLoc == x;
      assert RowKeys(rows)[j] == x;
    }
  }

  /** Looking a key up gives the geometry of the last row carrying that key. */
  lemma {:induction false} DictValues(rows: seq<GeoRow>, k: string)
    ensures Get(DictOf(rows), k) == LastValue(rows, k)
  {
    if rows != [] {
      DictValues(rows[..|rows| - 1], k);
    }
  }

  lemma {:induction false} LastValueFound(rows: seq<GeoRow>, i: nat)
    requires i < |rows|
    requires forall j :: i < j < |rows| ==> rows[j].eventLoc != rows[i].eventLoc
    ensures LastValue(rows, rows[i].eventLoc) == Some(rows[i].geojson)
  {
    if i < |rows| - 1 {
      LastValueFound(rows[..|rows| - 1], i);
    }
  }

  lemma {:induction false} LastValueMissing(rows: seq<GeoRow>, k: string)
    requires forall j :: 0 <= j < |rows| ==> rows[j].eventLoc != k
    ensures LastValue(rows, k) == None
  {
    if rows != [] {
      LastValueMissing(rows[..|rows| - 1], k);
    }
  }

  /** A later row with the same key overwrites an earlier one; a key no row carries is absent. */
  lemma LaterRowWins(rows: seq<GeoRow>, i: nat)
    requires i < |rows|
    requires forall j :: i < j < |rows| ==> rows[j].eventLoc != rows[i].eventLoc
    ensures Get(DictOf(rows), rows[i].eventLoc) == Some(rows[i].geojson)
  {
    DictValues(rows, rows[i].eventLoc);
    LastValueFound(rows, i);
  }

  lemma AbsentKey(rows: seq<GeoRow>, k: string)
    requires k !in RowKeys(rows)
    ensures Get(DictOf(rows), k) == None
  {
    DictValues(rows, k);
    LastValueMissing(rows, k);
  }

  /**
    The loop of `get_geometry` after its query: one dict assignment per row.
    Its keys are the rows' keys without repetition, in first-seen order, each
    holding the geometry of the last row with that key.
  */
  method CollectGeometry(rows: seq<GeoRow>) returns (result: GeoDict)
    ensures result == DictOf(rows)
    ensures Keys(result) == Dedup(RowKeys(rows))
    ensures forall k :: Get(result, k) == LastValue(rows, k)
  {
    result := [];
    for i := 0 to |rows|
      invariant result == DictOf(rows[..i])
    {
      assert rows[..i + 1][..i] == rows[..i];
      result := Put(result, rows[i].eventLoc, rows[i].geojson);
    }
    assert rows[..|rows|] == rows;
    DictKeys(rows);
    forall k {
      DictValues(rows, k);
    }
  }
}
