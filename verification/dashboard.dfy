/**
  The Streamlit dashboard's session: which article is selected, the map and the
  recommendation table built for it, and whether the article table is expanded.
  Each rerun of the script observes the selected table row and refreshes the
  committed state only when a different article has been selected.
*/
module Dashboard {
  import opened Wrappers
  import opened Store
  import opened Overlay
  import opened Frames
  import opened Recommendation
  import opened Geocoding

  /** The `k` of the recommendation request. */
  const RecCount: nat := 10

  /** The columns of `df` as `load_all_articles` selects them. */
  const ArticleColumns: seq<string> := ["id", "title", "summary", "publish_date", "category", "event_loc", "url"]

  /** The columns the article table shows, in order. */
  const ArticleDisplayColumns: seq<string> := ["id", "title", "summary", "publish_date", "category"]

  /** The height of the article table. */
  function TableHeight(expanded: bool): int {
    if expanded then 600 else 250
  }

  /** The label of the expand button. */
  function ButtonLabel(expanded: bool): string {
    if expanded then "Collapse table" else "Expand table"
  }

  /**
    The table is 600 high exactly when expanded and 250 otherwise, so toggling
    always switches between the two heights and the button offers the other state.
  */
  lemma TableHeightToggles(expanded: bool)
    ensures TableHeight(expanded) == 600 <==> expanded
    ensures TableHeight(!expanded) != TableHeight(expanded)
    ensures {TableHeight(expanded), TableHeight(!expanded)} == {250, 600}
    ensures ButtonLabel(expanded) != ButtonLabel(!expanded)
  {
  }

  /** Every wanted article column exists in the loaded frame, so the table shows all five, in order. */
  lemma ArticleDisplayAll()
    ensures SelectColumns(ArticleDisplayColumns, ArticleColumns) == ArticleDisplayColumns
  {
    var w, a := ArticleDisplayColumns, ArticleColumns;
    assert w[0] == a[0] && w[1] == a[1] && w[2] == a[2] && w[3] == a[3] && w[4] == a[4];
    SelectColumnsAll(w, a);
  }

  /** `rec_df`: the frame of the recommendation list, merged with the summaries unless it is empty. */
  function RecFrame(items: seq<RecItem>, df: seq<Article>): Frame {
    var f := FromRecords(items);
    if Empty(f) then f else LeftMerge(f, df)
  }

  /**
    An empty list gives an empty `rec_df` without a merge. Otherwise, with article
    ids unique, every recommendation row is kept, in order, with its cells, and
    gains the summary of the article with its id, or a missing value when no article has it.
  */
  lemma RecFrameSpec(items: seq<RecItem>, df: seq<Article>)
    requires UniqueIds(df)
    ensures items == [] ==> RecFrame(items, df) == FromRecords(items) && Empty(RecFrame(items, df))
    ensures |RecFrame(items, df).rows| == |items|
    ensures items != [] ==>
      var clash := "summary" in FromRecords(items).columns;
      forall i :: 0 <= i < |items| ==>
        RecFrame(items, df).rows[i] == MergeRow(FromRecords(items).rows[i], SummaryFor(df, Int(items[i].id)), clash) &&
        RecFrame(items, df).rows[i][SummaryColumn(clash)] == SummaryFor(df, Int(items[i].id))
  {
    FromRecordsShape(items);
    var f := FromRecords(items);
    if items != [] {
      var clash := "summary" in f.columns;
      MergeRowForRow(f.rows, df, clash);
      forall i | 0 <= i < |items|
        ensures RecFrame(items, df).rows[i][SummaryColumn(clash)] == SummaryFor(df, Int(items[i].id))
      {
        assert CellAt(f.rows[i], "id") == Int(items[i].id);
        MergeRowCells(f.rows[i], SummaryFor(df, Int(items[i].id)), clash);
      }
    }
  }

  /** `rec_df` is well formed whenever the recommendation dicts use neither suffixed summary name. */
  lemma RecFrameWellFormed(items: seq<RecItem>, df: seq<Article>)
    requires "summary_x" !in FromRecords(items).columns && "summary_y" !in FromRecords(items).columns
    ensures WellFormed(RecFrame(items, df))
  {
    FromRecordsShape(items);
    if !Empty(FromRecords(items)) {
      LeftMergeWellFormed(FromRecords(items), df);
    }
  }

  /** Without a summary among the dicts' keys, `rec_df` has the id and the article's summary in every row. */
  lemma RecFrameCells(items: seq<RecItem>, df: seq<Article>)
    requires UniqueIds(df)
    requires items != []
    requires "summary" !in FromRecords(items).columns
    ensures "id" in RecFrame(items, df).columns && "summary" in RecFrame(items, df).columns
    ensures |RecFrame(items, df).rows| == |items|
    ensures forall i :: 0 <= i < |items| ==>
      var row := RecFrame(items, df).rows[i];
      "id" in row && row["id"] == Int(items[i].id) &&
      "summary" in row && row["summary"] == SummaryFor(df, Int(items[i].id))
  {
    var f := FromRecords(items);
    FromRecordsShape(items);
    RecFrameSpec(items, df);
    var m := RecFrame(items, df);
    assert m.columns == MergedColumns(f.columns);
    MergedColumnsShape(f.columns);
    assert "id" in f.rows[0];
    forall i | 0 <= i < |items|
      ensures "id" in m.rows[i] && m.rows[i]["id"] == Int(items[i].id)
      ensures "summary" in m.rows[i] && m.rows[i]["summary"] == SummaryFor(df, Int(items[i].id))
    {
      MergeRowCells(f.rows[i], SummaryFor(df, Int(items[i].id)), false);
    }
  }

  /**
    The recommendation table as shown: with article ids unique and dicts carrying
    no summary of their own, it lists every recommendation in order, with its id
    and the truncated summary of its article, or a missing value.
  */
  lemma RecTableShowsSummaries(items: seq<RecItem>, df: seq<Article>)
    requires UniqueIds(df)
    requires items != []
    requires "summary" !in FromRecords(items).columns
    requires "summary_x" !in FromRecords(items).columns && "summary_y" !in FromRecords(items).columns
    ensures "id" in RecDisplay(RecFrame(items, df)).columns && "summary" in RecDisplay(RecFrame(items, df)).columns
    ensures |RecDisplay(RecFrame(items, df)).rows| == |items|
    ensures forall i :: 0 <= i < |items| ==>
      var row := RecDisplay(RecFrame(items, df)).rows[i];
      "id" in row && row["id"] == Int(items[i].id) &&
      "summary" in row && row["summary"] == Truncate(SummaryFor(df, Int(items[i].id)))
  {
    var m := RecFrame(items, df);
    RecFrameCells(items, df);
    RecFrameWellFormed(items, df);
    RecDisplayCells(m);
  }

  /** The article observed on a rerun: the id of the first selected row of `df`, if any. */
  function ObservedId(df: seq<Article>, selectedRows: seq<nat>): Option<Id>
    requires selectedRows != [] ==> selectedRows[0] < |df|
  {
    if selectedRows == [] then None else Some(df[selectedRows[0]].id)
  }

  /** What the recommendation panel shows. */
  datatype RecPanel = Prompt | NoRecommendations(selected: Id) | RecTable(selected: Id, table: Frame)

  /** The dashboard's `st.session_state` and the collaborators it calls. */
  class Session {
    const geo: Geocoder
    const rec: Recommender
    /** The articles, in the order the table lists them. */
    const df: seq<Article>
    var expanded: bool
    var selectedId: Option<Id>
    var mapObj: Option<FoliumMap>
    var recDf: Option<Frame>

    /**
      The committed fields belong together: nothing is committed before the first
      selection, and afterwards the map and `rec_df` are those of the selected article.
    */
    ghost predicate Valid()
      reads this, if mapObj.Some? then {mapObj.value} else {}
    {
      (selectedId.None? <==> mapObj.None?) &&
      (selectedId.None? <==> recDf.None?) &&
      (selectedId.Some? ==>
        mapObj.value.location == DefaultLocation && mapObj.value.zoomStart == DefaultZoom &&
        mapObj.value.children == geo.MapLayer([selectedId.value]) &&
        recDf.value == RecFrame(rec.ranking(selectedId.value, RecCount), df))
    }

    /** The first run's initialisation: collapsed, nothing selected, no map, no `rec_df`. */
    constructor (geo: Geocoder, rec: Recommender, df: seq<Article>)
      ensures this.geo == geo && this.rec == rec && this.df == df
      ensures !expanded && selectedId == None && mapObj == None && recDf == None
      ensures Valid()
    {
      this.geo := geo;
      this.rec := rec;
      this.df := df;
      expanded := false;
      selectedId := None;
      mapObj := None;
      recDf := None;
    }

    /** `toggle_expanded`: flips the flag and nothing else. */
    method ToggleExpanded()
      modifies this
      ensures expanded == !old(expanded)
      ensures selectedId == old(selectedId) && mapObj == old(mapObj) && recDf == old(recDf)
      ensures old(Valid()) ==> Valid()
    {
      expanded := !expanded;
    }

    /**
      The selection guard: a non-null id that differs from the committed one is
      refreshed; any other observation changes nothing and calls no one.
    */
    method Observe(current: Option<Id>)
      requires Valid()
      modifies this, geo, rec
      ensures Valid()
      ensures expanded == old(expanded)
      ensures !(current.Some? && current != old(selectedId)) ==>
        selectedId == old(selectedId) && mapObj == old(mapObj) && recDf == old(recDf) &&
        geo.log == old(geo.log) && geo.geometryCalls == old(geo.geometryCalls) && rec.calls == old(rec.calls)
      ensures current.Some? && current != old(selectedId) ==>
        selectedId == current && mapObj.Some? && fresh(mapObj.value) &&
        mapObj.value.children == geo.MapLayer([current.value]) &&
        recDf == Some(RecFrame(rec.ranking(current.value, RecCount), df)) &&
        geo.log == old(geo.log) + geo.MapQueries([current.value]) &&
        geo.geometryCalls == old(geo.geometryCalls) + (if geo.KeysFor([current.value]) == [] then 0 else 1) &&
        rec.calls == old(rec.calls) + [(current.value, RecCount)]
    {
      if current.Some? && current != selectedId {
        Refresh(current.value);
      }
    }

    /**
      The refresh: the id is committed first, then its map is built and its
      recommendations fetched and merged, each collaborator called once.
    */
    method Refresh(id: Id)
      modifies this, geo, rec
      ensures Valid()
      ensures expanded == old(expanded)
      ensures selectedId == Some(id) && mapObj.Some? && fresh(mapObj.value)
      ensures mapObj.value.children == geo.MapLayer([id])
      ensures recDf == Some(RecFrame(rec.ranking(id, RecCount), df))
      ensures geo.log == old(geo.log) + geo.MapQueries([id])
      ensures geo.geometryCalls == old(geo.geometryCalls) + (if geo.KeysFor([id]) == [] then 0 else 1)
      ensures rec.calls == old(rec.calls) + [(id, RecCount)]
    {
      selectedId := Some(id);
      var m := geo.GetMapSingle(id, DefaultLocation, DefaultZoom);
      mapObj := Some(m);
      var recList := rec.GetSimilarArticles(id, RecCount);
      assert m.children == geo.MapLayer([id]);
      var frame := FromRecords(recList);
      if !Empty(frame) {
        frame := LeftMerge(frame, df);
      }
      assert frame == RecFrame(rec.ranking(id, RecCount), df);
      recDf := Some(frame);
    }

    /** One rerun of the script after the table reports the selected rows. */
    method Rerun(selectedRows: seq<nat>)
      requires Valid()
      requires selectedRows != [] ==> selectedRows[0] < |df|
      modifies this, geo, rec
      ensures Valid()
      ensures expanded == old(expanded)
      ensures var current := ObservedId(df, selectedRows);
        if current.Some? && current != old(selectedId) then
          selectedId == current && mapObj.Some? && fresh(mapObj.value) &&
          rec.calls == old(rec.calls) + [(current.value, RecCount)] &&
          geo.log == old(geo.log) + geo.MapQueries([current.value]) &&
          geo.geometryCalls == old(geo.geometryCalls) + (if geo.KeysFor([current.value]) == [] then 0 else 1)
        else
          selectedId == old(selectedId) && mapObj == old(mapObj) && recDf == old(recDf) &&
          geo.log == old(geo.log) && geo.geometryCalls == old(geo.geometryCalls) && rec.calls == old(rec.calls)
    {
      var current: Option<Id> := None;
      if |selectedRows| > 0 {
        var selectedIdx := selectedRows[0];
        current := Some(df[selectedIdx].id);
      }
      Observe(current);
    }

    /**
      Rerunning with the same selection twice has exactly the effect of one rerun:
      the second run changes nothing and calls no collaborator.
    */
    method RerunTwice(selectedRows: seq<nat>)
      requires Valid()
      requires selectedRows != [] ==> selectedRows[0] < |df|
      modifies this, geo, rec
      ensures Valid()
      ensures expanded == old(expanded)
      ensures var current := ObservedId(df, selectedRows);
        if current.Some? && current != old(selectedId) then
          selectedId == current && mapObj.Some? && fresh(mapObj.value) &&
          rec.calls == old(rec.calls) + [(current.value, RecCount)] &&
          geo.log == old(geo.log) + geo.MapQueries([current.value]) &&
          geo.geometryCalls == old(geo.geometryCalls) + (if geo.KeysFor([current.value]) == [] then 0 else 1)
        else
          selectedId == old(selectedId) && mapObj == old(mapObj) && recDf == old(recDf) &&
          geo.log == old(geo.log) && geo.geometryCalls == old(geo.geometryCalls) && rec.calls == old(rec.calls)
    {
      Rerun(selectedRows);
      Rerun(selectedRows);
    }

    /**
      The recommendation panel: a prompt until an article is selected, then a
      notice when `rec_df` is empty, otherwise the display table of `rec_df`.
    */
    function Panel(): (p: RecPanel)
      reads this, if mapObj.Some? then {mapObj.value} else {}
      requires Valid()
      ensures p.Prompt? <==> selectedId.None?
      ensures selectedId.Some? ==> (p.NoRecommendations? <==> Empty(recDf.value))
      ensures p.RecTable? ==> p.selected == selectedId.value && p.table == RecDisplay(recDf.value)
      ensures p.RecTable? ==> |p.table.rows| == |recDf.value.rows|
    {
      if selectedId.Some? && recDf.Some? then
        if Empty(recDf.value) then NoRecommendations(selectedId.value)
        else RecTable(selectedId.value, RecDisplay(recDf.value))
      else Prompt
    }
  }
}
