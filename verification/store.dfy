/**
  The PostgreSQL tables the core reads, as the rows a query returns, and the
  `WHERE column = ANY(%s)` filters of its queries. The coordinate work inside the
  queries (`ST_Transform`, `ST_Intersects`, `ST_AsGeoJSON`) belongs to PostGIS and is taken as given.
*/
module Store {
  import opened Wrappers

  type Id = int

  /** The GeoJSON text `ST_AsGeoJSON` returns; `json.loads` is not modelled, the text stands for the geometry. */
  type GeoJson = string

  /** One row of table `summary` as `get_event_loc` selects it. */
  datatype SummaryRow = SummaryRow(id: Id, eventLoc: Option<string>)

  /** One row of `SELECT event_loc, ST_AsGeoJSON(geometry) AS geojson FROM geojson`. */
  datatype GeoRow = GeoRow(eventLoc: string, geojson: GeoJson)

  /** One row of table `nk_org`, its point already transformed from EPSG:5179 to EPSG:4326. */
  datatype OrgRow = OrgRow(orgName: string, lat: real, lon: real)

  /**
    One row of `geojson g JOIN nk_org o ON ST_Intersects(...)`: an organisation whose point
    lies in the polygon of a location key. Which pairs intersect is decided by PostGIS.
  */
  datatype JoinRow = JoinRow(orgName: string, eventLoc: string, lat: real, lon: real)

  /** One row of table `spnews_summary`, the article list the dashboard loads. */
  datatype Article = Article(
    id: Id, title: string, summary: Option<string>, publishDate: string,
    category: string, eventLoc: Option<string>, url: string)

  /** A `WHERE` clause: the rows satisfying `keep`, in the order the table holds them. */
  function Where<T>(rows: seq<T>, keep: T -> bool): (r: seq<T>)
    ensures |r| <= |rows|
    ensures forall i :: 0 <= i < |r| ==> r[i] in rows && keep(r[i])
    ensures forall i :: 0 <= i < |rows| && keep(rows[i]) ==> rows[i] in r
  {
    if rows == [] then []
    else
      var rest := Where(rows[1..], keep);
      assert forall i :: 0 < i < |rows| ==> rows[i] == rows[1..][i - 1];
      if keep(rows[0]) then [rows[0]] + rest else rest
  }

  /** Two filters that agree on every row of the table select the same rows. */
  lemma {:induction false} WhereAgrees<T>(rows: seq<T>, p: T -> bool, q: T -> bool)
    requires forall i :: 0 <= i < |rows| ==> p(rows[i]) == q(rows[i])
    ensures Where(rows, p) == Where(rows, q)
  {
    if rows != [] {
      WhereAgrees(rows[1..], p, q);
    }
  }

  /** Filtering distributes over concatenation: the rows keep their table order. */
  lemma {:induction false} WhereAppend<T>(a: seq<T>, b: seq<T>, keep: T -> bool)
    ensures Where(a + b, keep) == Where(a, keep) + Where(b, keep)
  {
    if a == [] {
      assert a + b == b;
    } else {
      assert (a + b)[0] == a[0] && (a + b)[1..] == a[1..] + b;
      WhereAppend(a[1..], b, keep);
    }
  }

  /** Every matching row is selected as often as the table holds it, and no other row is. */
  lemma {:induction false} WhereCounts<T>(rows: seq<T>, keep: T -> bool)
    ensures forall x :: multiset(Where(rows, keep))[x] == if keep(x) then multiset(rows)[x] else 0
  {
    if rows != [] {
      WhereCounts(rows[1..], keep);
      assert rows == [rows[0]] + rows[1..];
      assert multiset(rows) == multiset{rows[0]} + multiset(rows[1..]);
    }
  }

  /** A filter no row satisfies selects nothing. */
  lemma {:induction false} WhereNone<T>(rows: seq<T>, keep: T -> bool)
    requires forall i :: 0 <= i < |rows| ==> !keep(rows[i])
    ensures Where(rows, keep) == []
  {
    if rows != [] {
      WhereNone(rows[1..], keep);
    }
  }

  /** `WHERE id = ANY(ids)` on table `summary`. */
  function IdIn(ids: seq<Id>): SummaryRow -> bool {
    (r: SummaryRow) => r.id in ids
  }

  /** The `event_loc` column of the fetched `summary` rows, each entry `row["event_loc"]`. */
  function EventLocColumn(rows: seq<SummaryRow>): (col: seq<Option<string>>)
    ensures |col| == |rows|
    ensures forall i :: 0 <= i < |rows| ==> col[i] == rows[i].eventLoc
  {
    seq(|rows|, i requires 0 <= i < |rows| => rows[i].eventLoc)
  }

  /** `WHERE event_loc = ANY(keys)` on table `geojson`. */
  function LocIn(keys: seq<string>): GeoRow -> bool {
    (r: GeoRow) => r.eventLoc in keys
  }

  /** `WHERE org_name = ANY(names)` on table `nk_org`. */
  function NameIn(names: seq<string>): OrgRow -> bool {
    (r: OrgRow) => r.orgName in names
  }

  /** `WHERE g.event_loc = ANY(keys) AND o.org_name = ANY(names)` on the join. */
  function PairIn(keys: seq<string>, names: seq<string>): JoinRow -> bool {
    (r: JoinRow) => r.eventLoc in keys && r.orgName in names
  }
}
