/**
 * Table assembly (core.py:87-98) and the two column operations the drivers apply to a
 * table: alias renaming (app.py:131-136) and column projection (tasks.py:33-35). A
 * DataFrame is a list of column labels and one row of cells per record; a cell is `None`
 * where the record has no such key (pandas fills NaN there).
 */
module Table {
  import opened Wrappers
  import opened Assoc
  import opened Text
  import opened XmlTree
  import opened Normalize
  import opened Flatten
  import opened Detect

  datatype Frame = Frame(columns: seq<string>, rows: seq<seq<Option<Value>>>)

  /** Every row has one cell per column. */
  ghost predicate Rectangular(f: Frame) {
    forall i :: 0 <= i < |f.rows| ==> |f.rows[i]| == |f.columns|
  }

  /** `df.empty`: no rows or no columns. */
  predicate IsEmpty(f: Frame) {
    |f.rows| == 0 || |f.columns| == 0
  }

  ghost predicate Distinct(s: seq<string>) {
    forall i, j :: 0 <= i < j < |s| ==> s[i] != s[j]
  }

  /** Position of label `c` in `cols`, or -1. */
  function ColumnIndex(cols: seq<string>, c: string): (j: int)
    ensures -1 <= j < |cols|
    ensures j >= 0 ==> cols[j] == c && forall i :: 0 <= i < j ==> cols[i] != c
    ensures j == -1 <==> c !in cols
  {
    if cols == [] then -1
    else if cols[0] == c then 0
    else
      var j := ColumnIndex(cols[1..], c);
      if j < 0 then -1 else j + 1
  }

  // ----- assembling the table -----

  /** The keys of all records, record by record: the order in which pandas meets them. */
  function AllKeys(records: seq<seq<(string, Value)>>): seq<string>
    decreases |records|
  {
    if records == [] then [] else AllKeys(records[..|records| - 1]) + Keys(records[|records| - 1])
  }

  /** `pd.DataFrame(rows)` for a list of dicts: the union of the keys in order of first
      appearance, and each record's value under each of them. */
  function FrameOf(records: seq<seq<(string, Value)>>): Frame {
    var cols := FirstOccurrences(AllKeys(records));
    Frame(cols, seq(|records|, i requires 0 <= i < |records| =>
      seq(|cols|, j requires 0 <= j < |cols| => Get(records[i], cols[j]))))
  }

  /** `df.reindex(columns=cols)`: the cells of each named column, NaN for a label `df` lacks. */
  function Reindex(f: Frame, cols: seq<string>): Frame
    requires Rectangular(f)
  {
    Frame(cols, seq(|f.rows|, i requires 0 <= i < |f.rows| =>
      seq(|cols|, j requires 0 <= j < |cols| =>
        var k := ColumnIndex(f.columns, cols[j]);
        if k < 0 then None else f.rows[i][k])))
  }

  /** The record a detected row element becomes: `flatten_dict_all(element_to_dict(el))`. */
  function RecordOf(e: Element): seq<(string, Value)> {
    Flatten.Flatten(ElementToDict(e), "")
  }

  function RecordsOf(elems: seq<Element>): seq<seq<(string, Value)>> {
    seq(|elems|, i requires 0 <= i < |elems| => RecordOf(elems[i]))
  }

  /** The table for these records: sorted columns, each cell the record's value there. */
  function TableOf(records: seq<seq<(string, Value)>>): Frame {
    var cols := SortStrings(FirstOccurrences(AllKeys(records)));
    Frame(cols, seq(|records|, i requires 0 <= i < |records| =>
      seq(|cols|, j requires 0 <= j < |cols| => Get(records[i], cols[j]))))
  }

  /** What `xml_rows_to_dataframe` returns for a document: the table of the detected rows,
      or the parse error. */
  function DataFrameOf(doc: Document): Result<Frame> {
    match doc
    case Malformed(msg) => Err(msg)
    case Parsed(root) => Ok(TableOf(RecordsOf(RowsOf(root))))
  }

  /** The loop of `xml_rows_to_dataframe` that turns each row element into its flattened
      record. */
  method RowRecords(rowElems: seq<Element>) returns (rows: seq<seq<(string, Value)>>)
    ensures rows == RecordsOf(rowElems)
  {
    rows := [];
    for i := 0 to |rowElems|
      invariant rows == RecordsOf(rowElems[..i])
    {
      var obj := ElementToDict(rowElems[i]);
      var flat := Flatten.Flatten(obj, "");
      assert RecordsOf(rowElems[..i + 1]) == RecordsOf(rowElems[..i]) + [flat];
      rows := rows + [flat];
    }
    assert rowElems[..|rowElems|] == rowElems;
  }

  /** The table of the records: the frame of the records and, when it is not empty, its
      columns sorted. */
  method BuildFrame(rows: seq<seq<(string, Value)>>) returns (df: Frame)
    ensures df == TableOf(rows)
  {
    df := FrameOf(rows);
    FrameOfRectangular(rows);
    if !IsEmpty(df) {
      df := Reindex(df, SortStrings(df.columns));
    }
    SortedFrame(rows);
  }

  /** `xml_rows_to_dataframe`: detect the rows, turn each into a record, build the frame
      and, when it is not empty, sort its columns. */
  method XmlRowsToDataFrame(doc: Document) returns (r: Result<Frame>)
    ensures r == DataFrameOf(doc)
  {
    if doc.Malformed? {
      return Err(doc.message);
    }
    var rowElems := DetectRepeatingRows(doc.root);
    var rows := RowRecords(rowElems);
    var df := BuildFrame(rows);
    return Ok(df);
  }

  lemma FrameOfRectangular(records: seq<seq<(string, Value)>>)
    ensures Rectangular(FrameOf(records))
  {
  }

  /** Sorting the columns only when the frame is non-empty gives the same table as sorting
      them always: an empty frame has no columns to sort, or no rows to move. */
  lemma SortedFrame(records: seq<seq<(string, Value)>>)
    ensures var f := FrameOf(records);
      (if IsEmpty(f) then f else (FrameOfRectangular(records); Reindex(f, SortStrings(f.columns)))) == TableOf(records)
  {
    var f := FrameOf(records);
    var cols := f.columns;
    var sorted := SortStrings(cols);
    FrameOfRectangular(records);
    if IsEmpty(f) {
      if |cols| == 0 {
        assert |sorted| == |multiset(sorted)| == |multiset(cols)| == 0;
      }
    } else {
      SortedRows(records);
    }
  }

  /** Reindexing the frame by its sorted labels gives the table of the records. */
  lemma SortedRows(records: seq<seq<(string, Value)>>)
    requires Rectangular(FrameOf(records))
    ensures Reindex(FrameOf(records), SortStrings(FrameOf(records).columns)) == TableOf(records)
  {
    var sorted := SortStrings(FrameOf(records).columns);
    var g := Reindex(FrameOf(records), sorted);
    var t := TableOf(records);
    assert t.columns == sorted && |t.rows| == |g.rows| == |records|;
    forall i | 0 <= i < |records| ensures g.rows[i] == t.rows[i] {
      forall j | 0 <= j < |sorted| ensures g.rows[i][j] == t.rows[i][j] {
        SortedCell(records, i, j);
      }
    }
  }

  /** A cell of the frame with its columns sorted is the record's value under that label. */
  lemma SortedCell(records: seq<seq<(string, Value)>>, i: nat, j: nat)
    requires Rectangular(FrameOf(records))
    requires i < |records| && j < |SortStrings(FrameOf(records).columns)|
    ensures var sorted := SortStrings(FrameOf(records).columns);
      Reindex(FrameOf(records), sorted).rows[i][j] == Get(records[i], sorted[j])
  {
    var f := FrameOf(records);
    var cols := f.columns;
    var sorted := SortStrings(cols);
    assert sorted[j] in cols by {
      assert sorted[j] in multiset(sorted);
    }
    var k := ColumnIndex(cols, sorted[j]);
    assert f.rows[i][k] == Get(records[i], cols[k]);
  }

  // ----- what the table holds -----

  /** A label is among all the keys exactly when some record has it. */
  lemma {:induction false} AllKeysMembers(records: seq<seq<(string, Value)>>, c: string)
    ensures c in AllKeys(records) <==> exists i :: 0 <= i < |records| && c in Keys(records[i])
    decreases |records|
  {
    if records != [] {
      var init := records[..|records| - 1];
      var last := |records| - 1;
      assert AllKeys(records) == AllKeys(init) + Keys(records[last]);
      assert c in AllKeys(init) <==> exists i :: 0 <= i < |init| && c in Keys(init[i]) by {
        AllKeysMembers(init, c);
      }
      if c in AllKeys(records) {
        if c in AllKeys(init) {
          var i :| 0 <= i < |init| && c in Keys(init[i]);
          assert records[i] == init[i];
        } else {
          assert c in Keys(records[last]);
        }
      }
      if exists i :: 0 <= i < |records| && c in Keys(records[i]) {
        var i :| 0 <= i < |records| && c in Keys(records[i]);
        if i < last {
          assert init[i] == records[i];
        }
      }
    }
  }

  /** Distinct labels occur once each. */
  lemma {:induction false} DistinctOnce(s: seq<string>, x: string)
    requires Distinct(s)
    ensures multiset(s)[x] <= 1
    decreases |s|
  {
    if s != [] {
      var init := s[..|s| - 1];
      assert s == init + [s[|s| - 1]];
      DistinctOnce(init, x);
      if s[|s| - 1] == x {
        assert x !in init;
      }
    }
  }

  /** A label at two positions occurs at least twice. */
  lemma TwiceCounted(s: seq<string>, i: nat, j: nat)
    requires i < j < |s| && s[i] == s[j]
    ensures multiset(s)[s[i]] >= 2
  {
    assert s == s[..i] + [s[i]] + s[i + 1..j] + [s[j]] + s[j + 1..];
  }

  /** Labels are distinct exactly when none occurs twice. */
  lemma DistinctCounts(s: seq<string>)
    ensures Distinct(s) <==> forall c :: multiset(s)[c] <= 1
  {
    if Distinct(s) {
      forall c ensures multiset(s)[c] <= 1 {
        DistinctOnce(s, c);
      }
    } else {
      var i, j :| 0 <= i < j < |s| && s[i] == s[j];
      TwiceCounted(s, i, j);
    }
  }

  /** `Index.is_unique`. */
  function IsUnique(s: seq<string>): (b: bool)
    ensures b <==> Distinct(s)
    decreases |s|
  {
    if |s| <= 1 then true
    else
      var init := s[..|s| - 1];
      assert forall i :: 0 <= i < |init| ==> init[i] == s[i];
      s[|s| - 1] !in init && IsUnique(init)
  }

  /** Any rearrangement of distinct labels is still distinct. */
  lemma DistinctPermutation(s: seq<string>, r: seq<string>)
    requires Distinct(s) && multiset(r) == multiset(s)
    ensures Distinct(r)
  {
    forall i, j | 0 <= i < j < |r| ensures r[i] != r[j] {
      if r[i] == r[j] {
        TwiceCounted(r, i, j);
        DistinctOnce(s, r[i]);
      }
    }
  }

  /**
   * The assembled table: one row per record, in order; the columns are sorted, hold no
   * label twice, and are exactly the keys some record has; each cell is the record's
   * value under that column, `None` where the record lacks it.
   */
  lemma TableSpec(records: seq<seq<(string, Value)>>)
    ensures var t := TableOf(records);
      Rectangular(t) && |t.rows| == |records| && Sorted(t.columns) && Distinct(t.columns)
      && (forall c :: c in t.columns <==> exists i :: 0 <= i < |records| && c in Keys(records[i]))
      && (forall i, j :: 0 <= i < |records| && 0 <= j < |t.columns| ==> t.rows[i][j] == Get(records[i], t.columns[j]))
  {
    var t := TableOf(records);
    var names := FirstOccurrences(AllKeys(records));
    FirstOccurrencesDistinct(AllKeys(records));
    DistinctPermutation(names, t.columns);
    FirstOccurrencesMembers(AllKeys(records));
    forall c ensures c in t.columns <==> exists i :: 0 <= i < |records| && c in Keys(records[i]) {
      AllKeysMembers(records, c);
      assert c in t.columns <==> c in multiset(t.columns);
      assert c in names <==> c in multiset(names);
    }
  }

  /** A parsed document gives one table row per detected row element, in order, each the
      flattened record of that element; a malformed one gives its parse error. */
  lemma DataFrameRows(doc: Document)
    ensures doc.Malformed? ==> DataFrameOf(doc) == Err(doc.message)
    ensures doc.Parsed? ==> DataFrameOf(doc).Ok? && |DataFrameOf(doc).value.rows| == |RowsOf(doc.root)|
    ensures doc.Parsed? ==> forall i, j :: 0 <= i < |RowsOf(doc.root)| && 0 <= j < |DataFrameOf(doc).value.columns| ==>
      DataFrameOf(doc).value.rows[i][j] == Get(RecordOf(RowsOf(doc.root)[i]), DataFrameOf(doc).value.columns[j])
  {
    if doc.Parsed? {
      TableSpec(RecordsOf(RowsOf(doc.root)));
    }
  }

  // ----- alias renaming -----

  /** `rename_map`: the aliases whose key is a column and whose new name is non-empty. */
  function RenameMap(f: Frame, aliases: map<string, string>): map<string, string> {
    map k | k in aliases && k in f.columns && aliases[k] != "" :: aliases[k]
  }

  /** `apply_aliases(df, aliases)` */
  function ApplyAliases(f: Frame, aliases: map<string, string>): Frame {
    if |aliases| == 0 || IsEmpty(f) then f
    else
      var rm := RenameMap(f, aliases);
      if |rm| == 0 then f
      else Frame(seq(|f.columns|, j requires 0 <= j < |f.columns| =>
        if f.columns[j] in rm then rm[f.columns[j]] else f.columns[j]), f.rows)
  }

  /** An empty alias map or an empty table leaves the table as it is. */
  lemma AliasesSkip(f: Frame, aliases: map<string, string>)
    requires |aliases| == 0 || IsEmpty(f)
    ensures ApplyAliases(f, aliases) == f
  {
  }

  /**
   * Renaming keeps the rows, the number and the order of the columns; a column is renamed
   * exactly when the table is not empty and an alias for it has a non-empty new name, and
   * every other column keeps its label.
   */
  lemma AliasesSpec(f: Frame, aliases: map<string, string>)
    ensures ApplyAliases(f, aliases).rows == f.rows
    ensures |ApplyAliases(f, aliases).columns| == |f.columns|
    ensures forall j :: 0 <= j < |f.columns| ==>
      ApplyAliases(f, aliases).columns[j] ==
        if !IsEmpty(f) && f.columns[j] in aliases && aliases[f.columns[j]] != "" then aliases[f.columns[j]] else f.columns[j]
  {
    var r := ApplyAliases(f, aliases);
    if |aliases| != 0 && !IsEmpty(f) {
      var rm := RenameMap(f, aliases);
      forall j | 0 <= j < |f.columns|
        ensures r.columns[j] == if f.columns[j] in aliases && aliases[f.columns[j]] != "" then aliases[f.columns[j]] else f.columns[j]
      {
        if |rm| == 0 {
          assert f.columns[j] !in rm;
        }
      }
    }
  }

  // ----- column projection -----

  /** `[c for c in columns if c in df.columns]` */
  function KeepExisting(columns: seq<string>, present: seq<string>): (keep: seq<string>)
    decreases |columns|
  {
    if columns == [] then []
    else KeepExisting(columns[..|columns| - 1], present) + (if columns[|columns| - 1] in present then [columns[|columns| - 1]] else [])
  }

  /** `df[keep]`: the named columns in the given order, a repeated name giving a repeated column. */
  function Select(f: Frame, keep: seq<string>): Frame
    requires Rectangular(f) && forall c :: c in keep ==> c in f.columns
  {
    Frame(keep, seq(|f.rows|, i requires 0 <= i < |f.rows| =>
      seq(|keep|, j requires 0 <= j < |keep| => f.rows[i][ColumnIndex(f.columns, keep[j])])))
  }

  /** The projection step of `convert_task`: keep the requested columns that exist, or the
      whole table when none is requested or none exists. */
  function Project(f: Frame, columns: seq<string>): Frame
    requires Rectangular(f)
  {
    if columns == [] then f
    else
      var keep := KeepExisting(columns, f.columns);
      KeepExistingSpec(columns, f.columns);
      if keep == [] then f else Select(f, keep)
  }

  /** The kept names are those requested that exist, each as often as it was requested. */
  lemma {:induction false} KeepExistingSpec(columns: seq<string>, present: seq<string>)
    ensures forall c :: c in KeepExisting(columns, present) ==> c in present && c in columns
    ensures forall c :: c in present ==> multiset(KeepExisting(columns, present))[c] == multiset(columns)[c]
    ensures forall c :: c !in present ==> multiset(KeepExisting(columns, present))[c] == 0
    decreases |columns|
  {
    if columns != [] {
      var init := columns[..|columns| - 1];
      KeepExistingSpec(init, present);
      assert columns == init + [columns[|columns| - 1]];
    }
  }

  /**
   * Projection keeps every row. Without a request, or when nothing requested exists, the
   * table is unchanged; otherwise its columns are the requested existing ones, in request
   * order with repeats, and each cell is the original cell of that column.
   */
  lemma ProjectSpec(f: Frame, columns: seq<string>)
    requires Rectangular(f) && Distinct(f.columns)
    ensures Rectangular(Project(f, columns))
    ensures |Project(f, columns).rows| == |f.rows|
    ensures (columns == [] || KeepExisting(columns, f.columns) == []) ==> Project(f, columns) == f
    ensures columns != [] && KeepExisting(columns, f.columns) != [] ==> Project(f, columns).columns == KeepExisting(columns, f.columns)
    ensures forall c :: c in Project(f, columns).columns ==> c in f.columns
    ensures forall i, j :: 0 <= i < |f.rows| && 0 <= j < |Project(f, columns).columns| ==>
      Project(f, columns).rows[i][j] == f.rows[i][ColumnIndex(f.columns, Project(f, columns).columns[j])]
  {
    var p := Project(f, columns);
    if columns == [] || KeepExisting(columns, f.columns) == [] {
      forall i, j | 0 <= i < |f.rows| && 0 <= j < |p.columns|
        ensures p.rows[i][j] == f.rows[i][ColumnIndex(f.columns, p.columns[j])]
      {
        assert ColumnIndex(f.columns, f.columns[j]) == j;
      }
    } else {
      KeepExistingSpec(columns, f.columns);
    }
  }
}
