/**
  The pandas operations of the dashboard: building `rec_df` from the list of
  recommendation dicts, its left merge with the articles' summaries, the
  column filters and the summary truncation of the displayed tables.
*/
module Frames {
  import opened Seqs
  import opened Store

  /** A DataFrame cell: a missing value (`None`/NaN), an integer or a string. */
  datatype Cell = Null | Int(n: int) | Text(s: string)

  /** A DataFrame row: the cell of each column. */
  type Row = map<string, Cell>

  datatype Frame = Frame(columns: seq<string>, rows: seq<Row>)

  /** Column names are distinct and every row has a cell for exactly the frame's columns. */
  ghost predicate WellFormed(f: Frame) {
    NoDup(f.columns) &&
    forall i, c :: 0 <= i < |f.rows| ==> (c in f.rows[i] <==> c in f.columns)
  }

  /** `DataFrame.empty`: no rows or no columns. */
  predicate Empty(f: Frame) {
    |f.rows| == 0 || |f.columns| == 0
  }

  function CellAt(r: Row, c: string): Cell {
    if c in r then r[c] else Null
  }

  // ---------------------------------------------------------------- rec_df

  /** One dict of the recommendation list: its `"id"`, then its other keys in insertion order. */
  datatype RecItem = RecItem(id: Id, fields: seq<(string, Cell)>)

  function FieldNames(item: RecItem): seq<string> {
    ["id"] + seq(|item.fields|, j requires 0 <= j < |item.fields| => item.fields[j].0)
  }

  /** `item[c]`, or a missing value when the dict has no key `c`. */
  function Lookup(item: RecItem, c: string): Cell {
    if c == "id" then Int(item.id) else FieldCell(item.fields, c)
  }

  function FieldCell(fields: seq<(string, Cell)>, c: string): Cell {
    if fields == [] then Null
    else if fields[0].0 == c then fields[0].1
    else FieldCell(fields[1..], c)
  }

  /** The `id` of every item, in list order: `[item["id"] for item in rec_list]`. */
  function RecIds(items: seq<RecItem>): (ids: seq<Id>)
    ensures |ids| == |items|
    ensures forall i :: 0 <= i < |items| ==> ids[i] == items[i].id
  {
    if items == [] then [] else [items[0].id] + RecIds(items[1..])
  }

  /**
    `pd.DataFrame(rec_list)`: one row per dict, in list order; the columns are
    the keys of all dicts in first-seen order, a dict lacking a key has a missing value there.
  */
  function FromRecords(items: seq<RecItem>): Frame {
    var cols := Dedup(FlatMap(FieldNames, items));
    Frame(cols, seq(|items|, i requires 0 <= i < |items| => map c | c in cols :: Lookup(items[i], c)))
  }

  /** The frame of a recommendation list is well formed, one row per item, empty exactly when the list is. */
  lemma FromRecordsShape(items: seq<RecItem>)
    ensures WellFormed(FromRecords(items))
    ensures |FromRecords(items).rows| == |items|
    ensures Empty(FromRecords(items)) <==> items == []
    ensures forall i :: 0 <= i < |items| ==>
      "id" in FromRecords(items).rows[i] && FromRecords(items).rows[i]["id"] == Int(items[i].id)
  {
    var cols := FromRecords(items).columns;
    if items != [] {
      FlatMapMembers(FieldNames, items, "id");
      assert "id" in FieldNames(items[0]);
      assert "id" in FlatMap(FieldNames, items);
      assert "id" in cols;
    }
  }

  // ---------------------------------------------------------------- merge

  /** The summary cell of an article row of `df[['id', 'summary']]`. */
  function SummaryCell(a: Article): Cell {
    if a.summary.Some? then Text(a.summary.value) else Null
  }

  /** Matching on `id`: the article's id equals the row's key cell. */
  function HasId(key: Cell): Article -> bool {
    (a: Article) => Int(a.id) == key
  }

  /**
    Where the summary lands: `summary`, or `summary_y` when the left frame already
    had a `summary` column, which pandas then renames to `summary_x`.
  */
  function SummaryColumn(clash: bool): string {
    if clash then "summary_y" else "summary"
  }

  function MergedColumns(cols: seq<string>): seq<string> {
    if "summary" in cols then
      seq(|cols|, i requires 0 <= i < |cols| => if cols[i] == "summary" then "summary_x" else cols[i]) + ["summary_y"]
    else cols + ["summary"]
  }

  /** A left row extended with one summary value. */
  function MergeRow(r: Row, s: Cell, clash: bool): Row {
    if clash then (r - {"summary"})["summary_x" := CellAt(r, "summary")]["summary_y" := s]
    else r["summary" := s]
  }

  /**
    The rows one left row turns into: one per article with a matching id, in
    article order, or a single row with a missing summary when no article matches.
  */
  function Expand(r: Row, articles: seq<Article>, clash: bool): (rs: seq<Row>)
    ensures |rs| >= 1
    ensures forall j :: 0 <= j < |rs| ==>
      rs[j] == MergeRow(r, Null, clash) ||
      exists k :: 0 <= k < |articles| && Int(articles[k].id) == CellAt(r, "id") &&
        rs[j] == MergeRow(r, SummaryCell(articles[k]), clash)
  {
    var ms := Where(articles, HasId(CellAt(r, "id")));
    if ms == [] then [MergeRow(r, Null, clash)]
    else
      var rs := seq(|ms|, j requires 0 <= j < |ms| => MergeRow(r, SummaryCell(ms[j]), clash));
      assert forall j :: 0 <= j < |ms| ==> ms[j] in articles && HasId(CellAt(r, "id"))(ms[j]);
      rs
  }

  function MergeRows(left: seq<Row>, articles: seq<Article>, clash: bool): (rs: seq<Row>)
    ensures |rs| >= |left|
  {
    if left == [] then [] else Expand(left[0], articles, clash) + MergeRows(left[1..], articles, clash)
  }

  /** The rows of earlier left rows come first: merging distributes over concatenation. */
  lemma {:induction false} MergeRowsAppend(a: seq<Row>, b: seq<Row>, articles: seq<Article>, clash: bool)
    ensures MergeRows(a + b, articles, clash) == MergeRows(a, articles, clash) + MergeRows(b, articles, clash)
  {
    if a == [] {
      assert a + b == b;
    } else {
      assert (a + b)[0] == a[0] && (a + b)[1..] == a[1..] + b;
      MergeRowsAppend(a[1..], b, articles, clash);
    }
  }

  /** Every merged row is some left row extended with one summary value. */
  lemma {:induction false} MergeRowsOrigin(left: seq<Row>, articles: seq<Article>, clash: bool)
    ensures forall k :: 0 <= k < |MergeRows(left, articles, clash)| ==>
      exists i, s :: 0 <= i < |left| && MergeRows(left, articles, clash)[k] == MergeRow(left[i], s, clash)
  {
    if left == [] {
      assert MergeRows(left, articles, clash) == [];
    } else {
      MergeRowsOrigin(left[1..], articles, clash);
      var head := Expand(left[0], articles, clash);
      var tail := MergeRows(left[1..], articles, clash);
      var rs := MergeRows(left, articles, clash);
      assert rs == head + tail;
      forall k | 0 <= k < |rs|
        ensures exists i, s :: 0 <= i < |left| && rs[k] == MergeRow(left[i], s, clash)
      {
        if k < |head| {
          assert rs[k] == head[k];
          var s := Null;
          if rs[k] != MergeRow(left[0], Null, clash) {
            var a :| 0 <= a < |articles| && rs[k] == MergeRow(left[0], SummaryCell(articles[a]), clash);
            s := SummaryCell(articles[a]);
          }
          assert rs[k] == MergeRow(left[0], s, clash);
        } else {
          assert rs[k] == tail[k - |head|];
          var i, s :| 0 <= i < |left[1..]| && tail[k - |head|] == MergeRow(left[1..][i], s, clash);
          assert left[1..][i] == left[i + 1];
          assert rs[k] == MergeRow(left[i + 1], s, clash);
        }
      }
    }
  }

  /**
    `left.merge(df[['id', 'summary']], on='id', how='left')`. No left row is
    dropped; with article ids unique the rows correspond one for one, in order,
    each extended with its article's summary or a missing value.
  */
  function LeftMerge(left: Frame, articles: seq<Article>): (f: Frame)
    ensures |f.rows| >= |left.rows|
    ensures f.columns == MergedColumns(left.columns)
    ensures UniqueIds(articles) ==>
      (|f.rows| == |left.rows| &&
       forall i :: 0 <= i < |left.rows| ==>
         f.rows[i] == MergeRow(left.rows[i], SummaryFor(articles, CellAt(left.rows[i], "id")), "summary" in left.columns))
  {
    var clash := "summary" in left.columns;
    assert UniqueIds(articles) ==>
      (|MergeRows(left.rows, articles, clash)| == |left.rows| &&
       forall i :: 0 <= i < |left.rows| ==>
         MergeRows(left.rows, articles, clash)[i] == MergeRow(left.rows[i], SummaryFor(articles, CellAt(left.rows[i], "id")), clash))
    by {
      if UniqueIds(articles) {
        MergeRowForRow(left.rows, articles, clash);
      }
    }
    Frame(MergedColumns(left.columns), MergeRows(left.rows, articles, clash))
  }

  /** The summary of the article whose id is `key`, or a missing value when there is none. */
  function SummaryFor(articles: seq<Article>, key: Cell): Cell {
    var ms := Where(articles, HasId(key));
    if ms == [] then Null else SummaryCell(ms[0])
  }

  ghost predicate UniqueIds(articles: seq<Article>) {
    forall i, j :: 0 <= i < j < |articles| ==> articles[i].id != articles[j].id
  }

  lemma {:induction false} AtMostOneMatch(articles: seq<Article>, key: Cell)
    requires UniqueIds(articles)
    ensures |Where(articles, HasId(key))| <= 1
  {
    if articles != [] {
      var rest := articles[1..];
      assert UniqueIds(rest) by {
        forall i, j | 0 <= i < j < |rest| ensures rest[i].id != rest[j].id {
          assert rest[i] == articles[i + 1] && rest[j] == articles[j + 1];
        }
      }
      AtMostOneMatch(rest, key);
      if HasId(key)(articles[0]) {
        forall k | 0 <= k < |rest| ensures !HasId(key)(rest[k]) {
          assert rest[k] == articles[k + 1];
        }
        WhereNone(rest, HasId(key));
      }
    }
  }

  /**
    With article ids unique, the left merge keeps every recommendation row, in
    order, one for one, each extended with its article's summary or a missing value.
  */
  lemma {:induction false} MergeRowForRow(left: seq<Row>, articles: seq<Article>, clash: bool)
    requires UniqueIds(articles)
    ensures |MergeRows(left, articles, clash)| == |left|
    ensures forall i :: 0 <= i < |left| ==>
      MergeRows(left, articles, clash)[i] == MergeRow(left[i], SummaryFor(articles, CellAt(left[i], "id")), clash)
  {
    if left != [] {
      var key := CellAt(left[0], "id");
      AtMostOneMatch(articles, key);
      assert Expand(left[0], articles, clash) == [MergeRow(left[0], SummaryFor(articles, key), clash)];
      MergeRowForRow(left[1..], articles, clash);
      var rs := MergeRows(left, articles, clash);
      var tail := MergeRows(left[1..], articles, clash);
      assert rs == [MergeRow(left[0], SummaryFor(articles, key), clash)] + tail;
      forall i | 0 <= i < |left|
        ensures rs[i] == MergeRow(left[i], SummaryFor(articles, CellAt(left[i], "id")), clash)
      {
        if i > 0 {
          assert left[i] == left[1..][i - 1] && rs[i] == tail[i - 1];
        }
      }
    }
  }

  /** The merged row keeps every other left cell and holds the summary in the summary column. */
  lemma MergeRowCells(r: Row, s: Cell, clash: bool)
    ensures MergeRow(r, s, clash)[SummaryColumn(clash)] == s
    ensures forall c :: c in r && c != "summary" && c != "summary_x" && c != "summary_y" ==>
      c in MergeRow(r, s, clash) && MergeRow(r, s, clash)[c] == r[c]
    ensures clash ==> MergeRow(r, s, clash)["summary_x"] == CellAt(r, "summary")
    ensures !clash ==> MergeRow(r, s, clash).Keys == r.Keys + {"summary"}
  {
  }

  /**
    Only the summary column is added; or, when the left frame has one, it is
    renamed `summary_x` in place and `summary_y` is appended.
  */
  lemma MergedColumnsShape(cols: seq<string>)
    ensures "summary" !in cols ==> MergedColumns(cols) == cols + ["summary"]
    ensures "summary" in cols ==> |MergedColumns(cols)| == |cols| + 1 && MergedColumns(cols)[|cols|] == "summary_y"
    ensures "summary" in cols ==> forall i :: 0 <= i < |cols| ==>
      MergedColumns(cols)[i] == (if cols[i] == "summary" then "summary_x" else cols[i])
  {
  }

  /** Which names the merged column list holds, when the left frame uses neither suffixed name. */
  lemma MergedColumnMember(cols: seq<string>, c: string)
    requires "summary_x" !in cols && "summary_y" !in cols
    ensures c in MergedColumns(cols) <==>
      if "summary" in cols then c == "summary_x" || c == "summary_y" || (c in cols && c != "summary")
      else c in cols || c == "summary"
  {
    var m := MergedColumns(cols);
    if "summary" in cols {
      if c == "summary_x" {
        var i :| 0 <= i < |cols| && cols[i] == "summary";
        assert m[i] == c;
      } else if c in cols && c != "summary" {
        var i :| 0 <= i < |cols| && cols[i] == c;
        assert m[i] == c;
      } else if c == "summary_y" {
        assert m[|cols|] == c;
      }
    }
  }

  /** Merged column names stay distinct when the left frame's are and it uses neither suffixed name. */
  lemma MergedColumnsDistinct(cols: seq<string>)
    requires NoDup(cols)
    requires "summary_x" !in cols && "summary_y" !in cols
    ensures NoDup(MergedColumns(cols))
  {
    var m := MergedColumns(cols);
    forall i, j | 0 <= i < j < |m| ensures m[i] != m[j] {
      if "summary" in cols && j < |cols| {
        assert cols[i] != cols[j];
      }
      if j == |cols| {
        assert m[i] == cols[i] || m[i] == "summary_x";
      }
    }
  }

  /** A merged row has a cell for exactly the merged columns. */
  lemma MergeRowKeys(r: Row, s: Cell, cols: seq<string>)
    requires forall c :: c in r <==> c in cols
    requires "summary_x" !in cols && "summary_y" !in cols
    ensures forall c :: c in MergeRow(r, s, "summary" in cols) <==> c in MergedColumns(cols)
  {
    forall c {
      MergedColumnMember(cols, c);
    }
  }

  /** Merging keeps a frame well formed, given that it uses neither suffixed name. */
  lemma LeftMergeWellFormed(left: Frame, articles: seq<Article>)
    requires WellFormed(left)
    requires "summary_x" !in left.columns && "summary_y" !in left.columns
    ensures WellFormed(LeftMerge(left, articles))
  {
    var clash := "summary" in left.columns;
    var f := LeftMerge(left, articles);
    MergedColumnsDistinct(left.columns);
    MergeRowsOrigin(left.rows, articles, clash);
    forall k, c | 0 <= k < |f.rows| ensures c in f.rows[k] <==> c in f.columns {
      var i, s :| 0 <= i < |left.rows| && f.rows[k] == MergeRow(left.rows[i], s, clash);
      MergeRowKeys(left.rows[i], s, left.columns);
    }
  }

  // ---------------------------------------------------------------- display

  /** `[c for c in wanted if c in present]`. */
  function SelectColumns(wanted: seq<string>, present: seq<string>): (cs: seq<string>)
    ensures forall c :: c in cs <==> c in wanted && c in present
  {
    if wanted == [] then []
    else
      var rest := SelectColumns(wanted[1..], present);
      assert forall c :: c in wanted <==> c == wanted[0] || c in wanted[1..];
      if wanted[0] in present then [wanted[0]] + rest else rest
  }

  /** When every wanted column is present, the filter keeps them all, in the wanted order. */
  lemma {:induction false} SelectColumnsAll(wanted: seq<string>, present: seq<string>)
    requires forall i :: 0 <= i < |wanted| ==> wanted[i] in present
    ensures SelectColumns(wanted, present) == wanted
  {
    if wanted != [] {
      SelectColumnsAll(wanted[1..], present);
    }
  }

  /** The kept columns appear once each, in the wanted order. */
  lemma {:induction false} SelectColumnsOrder(wanted: seq<string>, present: seq<string>)
    requires NoDup(wanted)
    ensures NoDup(SelectColumns(wanted, present))
    ensures forall i, j :: 0 <= i < j < |SelectColumns(wanted, present)| ==>
      FirstIndex(wanted, SelectColumns(wanted, present)[i]) < FirstIndex(wanted, SelectColumns(wanted, present)[j])
  {
    if wanted != [] {
      var w := wanted[1..];
      assert NoDup(w);
      SelectColumnsOrder(w, present);
      var rest := SelectColumns(w, present);
      forall x | x in rest ensures FirstIndex(wanted, x) == 1 + FirstIndex(w, x) {
        assert x != wanted[0];
        assert wanted[1 + FirstIndex(w, x)] == x;
        assert wanted[..1 + FirstIndex(w, x)] == [wanted[0]] + w[..FirstIndex(w, x)];
      }
      if wanted[0] in present {
        var cs := [wanted[0]] + rest;
        assert cs == SelectColumns(wanted, present);
        assert FirstIndex(wanted, wanted[0]) == 0;
        assert forall i :: 0 < i < |cs| ==> cs[i] == rest[i - 1] && cs[i] in rest;
      }
    }
  }

  /** `frame[cols]`: the listed columns, in that order. */
  function Select(f: Frame, cols: seq<string>): Frame {
    Frame(cols, seq(|f.rows| , i requires 0 <= i < |f.rows| => map c | c in cols && c in f.rows[i] :: f.rows[i][c]))
  }

  /** `x[:50] + '...' if isinstance(x, str) and len(x) > 50 else x`. */
  function Truncate(x: Cell): Cell {
    if x.Text? && |x.s| > 50 then Text(x.s[..50] + "...") else x
  }

  /**
    Missing values, numbers and strings of at most 50 characters are left as they
    are; a longer string becomes a 53-character string: its first 50 characters and "...".
  */
  lemma TruncateSpec(x: Cell)
    ensures !(x.Text? && |x.s| > 50) ==> Truncate(x) == x
    ensures x.Text? && |x.s| > 50 ==>
      Truncate(x).Text? && |Truncate(x).s| == 53 &&
      Truncate(x).s[..50] == x.s[..50] && Truncate(x).s[50..] == "..."
  {
  }

  /** Truncating an already truncated value changes nothing. */
  lemma TruncateIdempotent(x: Cell)
    ensures Truncate(Truncate(x)) == Truncate(x)
  {
    if x.Text? && |x.s| > 50 {
      var t := x.s[..50] + "...";
      assert t[..50] == x.s[..50];
    }
  }

  /** `display_df['summary'].apply(...)` when the displayed frame has a `summary` column. */
  function TruncateSummaries(f: Frame): Frame {
    if "summary" in f.columns then
      Frame(f.columns, seq(|f.rows|, i requires 0 <= i < |f.rows| =>
        if "summary" in f.rows[i] then f.rows[i]["summary" := Truncate(f.rows[i]["summary"])] else f.rows[i]))
    else f
  }

  /** The columns of the recommendation table, in display order. */
  const RecDisplayColumns: seq<string> := ["id", "title", "summary", "category", "publish_date"]

  /** The recommendation table as displayed: the wanted columns `rec_df` has, with summaries truncated. */
  function RecDisplay(recDf: Frame): Frame {
    TruncateSummaries(Select(recDf, SelectColumns(RecDisplayColumns, recDf.columns)))
  }

  /**
    The displayed table has the wanted columns present in `rec_df`, in display order,
    the same rows, every cell copied except the summary, which is truncated.
  */
  lemma RecDisplayCells(recDf: Frame)
    requires WellFormed(recDf)
    ensures RecDisplay(recDf).columns == SelectColumns(RecDisplayColumns, recDf.columns)
    ensures |RecDisplay(recDf).rows| == |recDf.rows|
    ensures forall i, c :: 0 <= i < |recDf.rows| && c in RecDisplay(recDf).columns ==>
      c in RecDisplay(recDf).rows[i] &&
      RecDisplay(recDf).rows[i][c] == (if c == "summary" then Truncate(recDf.rows[i][c]) else recDf.rows[i][c])
  {
  }
}
