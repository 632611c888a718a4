/**
  The `Geocoder` class: location keys of articles, their geometries, the map
  overlay built from them, and the organisation lookups. The database is the set
  of tables the geocoder was opened on; every statement it executes is recorded.
*/
module Geocoding {
  import opened Seqs
  import opened Store
  import opened LocationKeys
  import opened GeoDicts
  import opened Overlay
  import opened Frames
  import opened Recommendation

  /** A statement sent to the database, with its parameters. */
  datatype Query =
    | EventLocQuery(ids: seq<Id>)
    | GeometryQuery(keys: seq<string>)
    | OrgQuery(names: seq<string>)
    | JoinQuery(keys: seq<string>, names: seq<string>)

  class Geocoder {
    /** Table `summary`, in the order the database returns its rows. */
    const summary: seq<SummaryRow>
    /** Table `geojson`, one row per location key with its polygon as GeoJSON text. */
    const geojson: seq<GeoRow>
    /** Table `nk_org`, the points of North Korean organisations. */
    const nkOrg: seq<OrgRow>
    /** The pairs of `geojson` and `nk_org` rows whose shapes intersect. */
    const intersecting: seq<JoinRow>
    /** The fill colour of the i-th layer added to a map. */
    const color: nat -> Color
    /** The statements executed so far, oldest first. */
    var log: seq<Query>
    /** The number of calls of `GetGeometry`, with or without a query. */
    ghost var geometryCalls: nat

    constructor (summary: seq<SummaryRow>, geojson: seq<GeoRow>, nkOrg: seq<OrgRow>,
                 intersecting: seq<JoinRow>, color: nat -> Color)
      ensures this.summary == summary && this.geojson == geojson && this.nkOrg == nkOrg
      ensures this.intersecting == intersecting && this.color == color
      ensures log == [] && geometryCalls == 0
    {
      this.summary := summary;
      this.geojson := geojson;
      this.nkOrg := nkOrg;
      this.intersecting := intersecting;
      this.color := color;
      log := [];
      geometryCalls := 0;
    }

    /** The location keys of the articles `ids`, over the rows the `summary` query returns. */
    function KeysFor(ids: seq<Id>): seq<string> {
      EventLocKeys(EventLocColumn(Where(summary, IdIn(ids))))
    }

    /** The geometry dict of `keys`: empty without a query for no keys. */
    function GeometryFor(keys: seq<string>): GeoDict {
      if keys == [] then [] else DictOf(Where(geojson, LocIn(keys)))
    }

    function GeometryQueries(keys: seq<string>): seq<Query> {
      if keys == [] then [] else [GeometryQuery(keys)]
    }

    /** The layers of the map drawn for the articles `ids`. */
    function MapLayer(ids: seq<Id>): seq<Feature> {
      Layers(GeometryFor(KeysFor(ids)), color)
    }

    /** The statements the map for `ids` executes: the key query, then the geometry query if any key was found. */
    function MapQueries(ids: seq<Id>): seq<Query> {
      [EventLocQuery(ids)] + GeometryQueries(KeysFor(ids))
    }

    /**
      The keys carry no repetition, and they are exactly the trimmed non-empty
      comma-separated pieces of the `event_loc` of some `summary` row whose id is asked for.
    */
    lemma KeysForSpec(ids: seq<Id>)
      ensures NoDup(KeysFor(ids))
      ensures forall x :: x in KeysFor(ids) <==>
        exists i :: 0 <= i < |summary| && summary[i].id in ids && IsTokenOf(x, summary[i].eventLoc)
    {
      var rows := Where(summary, IdIn(ids));
      var col := EventLocColumn(rows);
      forall x
        ensures x in KeysFor(ids) <==>
          exists i :: 0 <= i < |summary| && summary[i].id in ids && IsTokenOf(x, summary[i].eventLoc)
      {
        KeysAreRowTokens(col, x);
        if x in KeysFor(ids) {
          var j :| 0 <= j < |col| && IsTokenOf(x, col[j]);
          assert rows[j] in summary && IdIn(ids)(rows[j]);
          var i :| 0 <= i < |summary| && summary[i] == rows[j];
          assert summary[i].id in ids && IsTokenOf(x, summary[i].eventLoc);
        }
        if exists i :: 0 <= i < |summary| && summary[i].id in ids && IsTokenOf(x, summary[i].eventLoc) {
          var i :| 0 <= i < |summary| && summary[i].id in ids && IsTokenOf(x, summary[i].eventLoc);
          assert IdIn(ids)(summary[i]);
          assert summary[i] in rows;
          var j :| 0 <= j < |rows| && rows[j] == summary[i];
          assert IsTokenOf(x, col[j]);
        }
      }
    }

    /**
      The query imposes no order on the ids: asking for the same set of ids, in
      any order and with any repetition, yields the same keys in the same order.
    */
    lemma KeysIgnoreIdOrder(ids1: seq<Id>, ids2: seq<Id>)
      requires forall x :: x in ids1 <==> x in ids2
      ensures KeysFor(ids1) == KeysFor(ids2)
    {
      WhereAgrees(summary, IdIn(ids1), IdIn(ids2));
    }

    /** Asking for more ids never loses a key: `get_map`'s keys include the clicked article's. */
    lemma KeysGrowWithIds(ids1: seq<Id>, ids2: seq<Id>)
      requires forall x :: x in ids1 ==> x in ids2
      ensures forall x :: x in KeysFor(ids1) ==> x in KeysFor(ids2)
    {
      KeysForSpec(ids1);
      KeysForSpec(ids2);
    }

    /**
      The geometry dict has the keys asked for that some `geojson` row carries,
      once each, and holds the geometry of the last such row; no keys give an empty dict.
    */
    lemma GeometryForSpec(keys: seq<string>)
      ensures keys == [] ==> GeometryFor(keys) == []
      ensures NoDup(Keys(GeometryFor(keys)))
      ensures forall x :: x in Keys(GeometryFor(keys)) <==>
        x in keys && exists i :: 0 <= i < |geojson| && geojson[i].eventLoc == x
      ensures keys != [] ==> forall x :: Get(GeometryFor(keys), x) == LastValue(Where(geojson, LocIn(keys)), x)
    {
      if keys != [] {
        var rows := Where(geojson, LocIn(keys));
        DictKeys(rows);
        forall x {
          DictValues(rows, x);
        }
        forall x
          ensures x in Keys(GeometryFor(keys)) <==>
            x in keys && exists i :: 0 <= i < |geojson| && geojson[i].eventLoc == x
        {
          GeometryKeyMember(keys, x);
        }
      }
    }

    lemma GeometryKeyMember(keys: seq<string>, x: string)
      requires keys != []
      ensures x in Keys(GeometryFor(keys)) <==>
        x in keys && exists i :: 0 <= i < |geojson| && geojson[i].eventLoc == x
    {
      var rows := Where(geojson, LocIn(keys));
      assert GeometryFor(keys) == DictOf(rows);
      DictKeyMember(rows, x);
      if exists j :: 0 <= j < |rows| && rows[j].eventLoc == x {
        var j :| 0 <= j < |rows| && rows[j].eventLoc == x;
        assert rows[j] in geojson && LocIn(keys)(rows[j]);
      }
      if x in keys && exists i :: 0 <= i < |geojson| && geojson[i].eventLoc == x {
        var i :| 0 <= i < |geojson| && geojson[i].eventLoc == x;
        assert LocIn(keys)(geojson[i]);
        assert geojson[i] in rows;
      }
    }

    /**
      The map for `ids` has one layer per geometry entry, in dict order, named by
      its key: the names are distinct keys of the articles that have a geometry.
    */
    lemma MapLayerSpec(ids: seq<Id>)
      ensures Names(MapLayer(ids)) == Keys(GeometryFor(KeysFor(ids)))
      ensures NoDup(Names(MapLayer(ids)))
      ensures forall x :: x in Names(MapLayer(ids)) <==>
        x in KeysFor(ids) && exists i :: 0 <= i < |geojson| && geojson[i].eventLoc == x
      ensures KeysFor(ids) == [] ==> MapLayer(ids) == []
    {
      LayerLabels(GeometryFor(KeysFor(ids)), color);
      GeometryForSpec(KeysFor(ids));
    }

    /** `get_event_loc(ids)`: one query, then the key extraction over the rows it returns. */
    method GetEventLoc(ids: seq<Id>) returns (keys: seq<string>)
      modifies this
      ensures keys == KeysFor(ids)
      ensures log == old(log) + [EventLocQuery(ids)]
      ensures geometryCalls == old(geometryCalls)
    {
      log := log + [EventLocQuery(ids)];
      var rows := Where(summary, IdIn(ids));
      keys := CollectKeys(EventLocColumn(rows));
    }

    /** `get_geometry(event_locs)`: `{}` at once for no keys, otherwise one query and the dict loop. */
    method GetGeometry(keys: seq<string>) returns (result: GeoDict)
      modifies this
      ensures result == GeometryFor(keys)
      ensures log == old(log) + GeometryQueries(keys)
      ensures geometryCalls == old(geometryCalls) + 1
    {
      geometryCalls := geometryCalls + 1;
      if keys == [] {
        return [];
      }
      log := log + [GeometryQuery(keys)];
      var rows := Where(geojson, LocIn(keys));
      result := CollectGeometry(rows);
    }

    /**
      `get_map_single(click_id, location, zoom_start)`: a new map with the layers of
      the clicked article alone; with no key it is returned bare and `get_geometry` is not called.
    */
    method GetMapSingle(clickId: Id, location: (real, real), zoomStart: int) returns (m: FoliumMap)
      modifies this
      ensures fresh(m)
      ensures m.location == location && m.zoomStart == zoomStart
      ensures m.children == MapLayer([clickId])
      ensures log == old(log) + MapQueries([clickId])
      ensures geometryCalls == old(geometryCalls) + (if KeysFor([clickId]) == [] then 0 else 1)
    {
      var eventLocs := GetEventLoc([clickId]);
      m := new FoliumMap(location, zoomStart);
      if eventLocs == [] {
        return;
      }
      var geoDict := GetGeometry(eventLocs);
      AddLayers(m, geoDict, color);
    }

    /**
      `get_map(click_id, recommender, k, location, zoom_start)`: one call of the
      recommender, then a new map with the layers of `[click_id] + rec_ids`.
    */
    method GetMap(clickId: Id, recommender: Recommender, k: nat, location: (real, real), zoomStart: int)
      returns (m: FoliumMap)
      modifies this, recommender
      ensures recommender.calls == old(recommender.calls) + [(clickId, k)]
      ensures fresh(m)
      ensures m.location == location && m.zoomStart == zoomStart
      ensures m.children == MapLayer([clickId] + RecIds(recommender.ranking(clickId, k)))
      ensures log == old(log) + MapQueries([clickId] + RecIds(recommender.ranking(clickId, k)))
      ensures geometryCalls == old(geometryCalls) + 1
    {
      var recList := recommender.GetSimilarArticles(clickId, k);
      var targetIds := [clickId] + RecIds(recList);
      var eventLocs := GetEventLoc(targetIds);
      var geoDict := GetGeometry(eventLocs);
      assert log == old(log) + MapQueries(targetIds);
      m := new FoliumMap(location, zoomStart);
      AddLayers(m, geoDict, color);
      assert m.children == Layers(geoDict, color);
    }

    /** `get_org(org_names)`: `[]` without a query for no names, otherwise the matching `nk_org` rows. */
    method GetOrg(orgNames: seq<string>) returns (rows: seq<OrgRow>)
      modifies this
      ensures orgNames == [] ==> rows == [] && log == old(log)
      ensures orgNames != [] ==> rows == Where(nkOrg, NameIn(orgNames)) && log == old(log) + [OrgQuery(orgNames)]
      ensures geometryCalls == old(geometryCalls)
    {
      if orgNames == [] {
        return [];
      }
      log := log + [OrgQuery(orgNames)];
      rows := Where(nkOrg, NameIn(orgNames));
    }

    /**
      `do_spatial_join(event_locs, event_orgs)`: `[]` without a query when either
      list is empty, otherwise the intersecting pairs whose key and name were asked for.
    */
    method DoSpatialJoin(eventLocs: seq<string>, eventOrgs: seq<string>) returns (rows: seq<JoinRow>)
      modifies this
      ensures eventLocs == [] || eventOrgs == [] ==> rows == [] && log == old(log)
      ensures eventLocs != [] && eventOrgs != [] ==>
        rows == Where(intersecting, PairIn(eventLocs, eventOrgs)) &&
        log == old(log) + [JoinQuery(eventLocs, eventOrgs)]
      ensures geometryCalls == old(geometryCalls)
    {
      if eventLocs == [] || eventOrgs == [] {
        return [];
      }
      log := log + [JoinQuery(eventLocs, eventOrgs)];
      rows := Where(intersecting, PairIn(eventLocs, eventOrgs));
    }
  }
}
