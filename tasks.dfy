/**
 * The background conversion task `convert_task` (tasks.py:14-97): each saved upload is
 * turned into a table, projected onto the requested columns and written as CSV, Parquet
 * or an Excel workbook. Several files go into one archive, with a progress report after
 * each; a single file gives one artifact. The saved uploads are a map from file id to
 * document, standing for the `temp_uploads` directory.
 */
module Tasks {
  import opened Wrappers
  import opened XmlTree
  import opened Table
  import opened Sheets
  import opened Naming

  /** The output format; any string but `csv` and `parquet` means an Excel workbook. */
  datatype Format = Csv | Parquet | Xlsx

  function FormatOf(s: string): Format {
    if s == "csv" then Csv else if s == "parquet" then Parquet else Xlsx
  }

  function Extension(f: Format): string {
    match f
    case Csv => ".csv"
    case Parquet => ".parquet"
    case Xlsx => ".xlsx"
  }

  /** What is written for one table: the table itself as CSV or Parquet, or its sheets. */
  datatype Content = CsvTable(table: Frame) | ParquetTable(table: Frame) | Workbook(sheets: seq<Sheet>)

  /** A written file: an archive member, or the single output. */
  datatype Artifact = Artifact(name: string, content: Content)

  /** A `PROGRESS` report: files done so far, files given, and the last file's name. */
  datatype Progress = Progress(current: nat, total: nat, file: string)

  /** What a run of `convert_task` gives: the result filename or the exception's message, the
      files written, and the progress reports issued. */
  datatype Outcome = Outcome(result: Result<string>, written: seq<Artifact>, progress: seq<Progress>)

  /** The exception `open` raises for an id with no saved upload. */
  function Missing(fid: string): string {
    "[Errno 2] No such file or directory: 'temp_uploads/" + fid + ".xml'"
  }

  const ArchiveName: string := "converted_files.zip"
  const IndexError: string := "list index out of range"

  /** A parsed table can be projected: it is rectangular with distinct columns. */
  lemma Projectable(doc: Document)
    requires DataFrameOf(doc).Ok?
    ensures Rectangular(DataFrameOf(doc).value) && Distinct(DataFrameOf(doc).value.columns)
  {
    TableSpec(RecordsOf(Detect.RowsOf(doc.root)));
  }

  /** The table written for a parsed upload: its columns narrowed to those requested. */
  function Kept(doc: Document, columns: seq<string>): (t: Frame)
    requires DataFrameOf(doc).Ok?
    ensures Rectangular(t)
  {
    Projectable(doc);
    ProjectSpec(DataFrameOf(doc).value, columns);
    Project(DataFrameOf(doc).value, columns)
  }

  /** `repr(list(df.columns))`: each name in single quotes, separated by `, `. */
  function ListRepr(names: seq<string>): string {
    "[" + Quoted(names) + "]"
  }

  function Quoted(names: seq<string>): string
    decreases |names|
  {
    if names == [] then ""
    else if |names| == 1 then "'" + names[0] + "'"
    else "'" + names[0] + "', " + Quoted(names[1..])
  }

  /** The `ValueError` the Parquet writer raises for a table with a repeated column. */
  function DuplicateColumns(names: seq<string>): string {
    "Duplicate column names found: " + ListRepr(names)
  }

  /** The three writers of the format dispatch: CSV takes any table, Parquet refuses
      repeated column names and the workbook writer refuses too many rows. */
  function Render(df: Frame, fmt: Format): Result<Content>
    requires Rectangular(df)
  {
    match fmt
    case Csv => Ok(CsvTable(df))
    case Parquet => if IsUnique(df.columns) then Ok(ParquetTable(df)) else Err(DuplicateColumns(df.columns))
    case Xlsx =>
      match WorkbookOf(df)
      case Err(msg) => Err(msg)
      case Ok(sheets) => Ok(Workbook(sheets))
  }

  /** Each writer's verdict: only Parquet with a repeated column name and a workbook
      with more than 1048576 records fail, each with its own message. */
  lemma RenderSpec(df: Frame, fmt: Format)
    requires Rectangular(df)
    ensures Render(df, fmt).Ok? <==> (fmt == Parquet ==> Distinct(df.columns)) && (fmt == Xlsx ==> |df.rows| <= MaxRows)
    ensures fmt == Parquet && Render(df, fmt).Err? ==> Render(df, fmt).message == DuplicateColumns(df.columns)
    ensures fmt == Xlsx && Render(df, fmt).Err? ==> Render(df, fmt).message == TooLarge(|df.rows|, Min(|df.columns|, MaxCols))
    ensures Render(df, fmt).Ok? ==> Render(df, fmt).value == (match fmt
      case Csv => CsvTable(df)
      case Parquet => ParquetTable(df)
      case Xlsx => Workbook(SheetsOf(df)))
  {
    if fmt == Xlsx {
      WorkbookSpec(df);
    }
  }

  /** No column of the table is requested twice. */
  ghost predicate AskedOnce(columns: seq<string>, present: seq<string>) {
    forall c :: c in present ==> multiset(columns)[c] <= 1
  }

  /** The kept table repeats a column exactly when a column the table has is requested
      twice: repeats of absent names are dropped, and with nothing kept the table's own
      columns are distinct. */
  lemma KeptDistinct(doc: Document, columns: seq<string>)
    requires DataFrameOf(doc).Ok?
    ensures Distinct(Kept(doc, columns).columns) <==> AskedOnce(columns, DataFrameOf(doc).value.columns)
  {
    var f := DataFrameOf(doc).value;
    Projectable(doc);
    ProjectSpec(f, columns);
    KeepExistingSpec(columns, f.columns);
    var keep := KeepExisting(columns, f.columns);
    if columns != [] && keep != [] {
      DistinctCounts(keep);
      assert Distinct(keep) <==> forall c :: c in f.columns ==> multiset(keep)[c] <= 1;
    }
  }

  /** The kept table has one row per record. */
  lemma KeptRows(doc: Document, columns: seq<string>)
    requires doc.Parsed?
    ensures DataFrameOf(doc).Ok? && |Kept(doc, columns).rows| == |Detect.RowsOf(doc.root)|
  {
    DataFrameRows(doc);
    Projectable(doc);
    ProjectSpec(DataFrameOf(doc).value, columns);
  }

  /** One file: read the saved upload, build its table, keep the requested columns, write
      it in the format asked for, named after the upload. */
  function Output(fid: string, fname: string, columns: seq<string>, fmt: Format, uploads: map<string, Document>): Result<Artifact> {
    if fid !in uploads then Err(Missing(fid))
    else
      match DataFrameOf(uploads[fid])
      case Err(msg) => Err(msg)
      case Ok(_) =>
        match Render(Kept(uploads[fid], columns), fmt)
        case Err(msg) => Err(msg)
        case Ok(content) => Ok(Artifact(EntryName(fname, Extension(fmt)), content))
  }

  /** `zip(file_ids, file_names)`: the file/name pairs, as many as the shorter list. */
  function Pairs(ids: seq<string>, names: seq<string>): nat {
    if |ids| <= |names| then |ids| else |names|
  }

  /** The outcome of each file of `zip(file_ids, file_names)`, in order. */
  function Outputs(ids: seq<string>, names: seq<string>, columns: seq<string>, fmt: Format, uploads: map<string, Document>): (outs: seq<Result<Artifact>>)
    ensures |outs| == Pairs(ids, names)
  {
    seq(Pairs(ids, names), k requires 0 <= k < Pairs(ids, names) => Output(ids[k], names[k], columns, fmt, uploads))
  }

  /**
   * The archive loop from file `i` on, given the members written and the reports issued
   * so far: each success adds its member and a report numbered `i + 1` with the file's
   * name; the first failure ends the run with its message.
   */
  function ArchiveFrom(outs: seq<Result<Artifact>>, names: seq<string>, total: nat, i: nat,
                       written: seq<Artifact>, progress: seq<Progress>): Outcome
    requires |outs| <= |names| && i <= |outs|
    decreases |outs| - i
  {
    if i == |outs| then Outcome(Ok(ArchiveName), written, progress)
    else if outs[i].Err? then Outcome(Err(outs[i].message), written, progress)
    else ArchiveFrom(outs, names, total, i + 1, written + [outs[i].value], progress + [Progress(i + 1, total, names[i])])
  }

  /** `convert_task`: the archive for more than one id, otherwise the first (and only) file
      on its own, which fails on an empty list. */
  function TaskOutcome(ids: seq<string>, names: seq<string>, columns: seq<string>, fmt: Format, uploads: map<string, Document>): Outcome {
    var outs := Outputs(ids, names, columns, fmt, uploads);
    if |ids| > 1 then ArchiveFrom(outs, names, |ids|, 0, [], [])
    else if |ids| == 0 || |names| == 0 then Outcome(Err(IndexError), [], [])
    else if outs[0].Err? then Outcome(Err(outs[0].message), [], [])
    else Outcome(Ok(outs[0].value.name), [outs[0].value], [])
  }

  /** The body for one file (tasks.py:29-57, 67-96). */
  method ConvertOne(fid: string, fname: string, columns: seq<string>, fmt: Format, uploads: map<string, Document>)
    returns (r: Result<Artifact>)
    ensures r == Output(fid, fname, columns, fmt, uploads)
  {
    if fid !in uploads {
      return Err(Missing(fid));
    }
    var df := XmlRowsToDataFrame(uploads[fid]);
    if df.Err? {
      return Err(df.message);
    }
    Projectable(uploads[fid]);
    ProjectSpec(df.value, columns);
    var kept := Project(df.value, columns);
    var base := Stem(fname);
    var content;
    match fmt {
      case Csv => content := CsvTable(kept);
      case Parquet =>
        if !IsUnique(kept.columns) {
          return Err(DuplicateColumns(kept.columns));
        }
        content := ParquetTable(kept);
      case Xlsx =>
        var sheets := WriteSheets(kept);
        if sheets.Err? {
          return Err(sheets.message);
        }
        content := Workbook(sheets.value);
    }
    return Ok(Artifact(base + Extension(fmt), content));
  }

  /** File `k` of the pairs, as `Outputs` has it. */
  method ConvertAt(ids: seq<string>, names: seq<string>, columns: seq<string>, fmt: Format, uploads: map<string, Document>, k: nat)
    returns (r: Result<Artifact>)
    requires k < Pairs(ids, names)
    ensures r == Outputs(ids, names, columns, fmt, uploads)[k]
  {
    r := ConvertOne(ids[k], names[k], columns, fmt, uploads);
  }

  /** The archive loop of `convert_task` for more than one id: convert the pairs in
      order, adding each member and its progress report, and stop at the first failure. */
  method ArchiveLoop(ids: seq<string>, names: seq<string>, columns: seq<string>, fmt: Format, uploads: map<string, Document>)
    returns (o: Outcome)
    ensures o == ArchiveFrom(Outputs(ids, names, columns, fmt, uploads), names, |ids|, 0, [], [])
  {
    ghost var outs := Outputs(ids, names, columns, fmt, uploads);
    var total := |ids|;
    var n := Pairs(ids, names);
    var written: seq<Artifact> := [];
    var progress: seq<Progress> := [];
    var idx := 0;
    while idx < n
      invariant idx <= n
      invariant ArchiveFrom(outs, names, total, idx, written, progress) == ArchiveFrom(outs, names, total, 0, [], [])
      decreases n - idx
    {
      var r := ConvertAt(ids, names, columns, fmt, uploads, idx);
      assert r == outs[idx];
      if r.Err? {
        return Outcome(Err(r.message), written, progress);
      }
      written := written + [r.value];
      progress := progress + [Progress(idx + 1, total, names[idx])];
      idx := idx + 1;
    }
    assert idx == |outs|;
    return Outcome(Ok(ArchiveName), written, progress);
  }

  /** `convert_task` with its output format given as a string. */
  method ConvertTask(ids: seq<string>, names: seq<string>, columns: seq<string>, format: string, uploads: map<string, Document>)
    returns (o: Outcome)
    ensures o == TaskOutcome(ids, names, columns, FormatOf(format), uploads)
  {
    var fmt := FormatOf(format);
    var total := |ids|;
    if total > 1 {
      o := ArchiveLoop(ids, names, columns, fmt, uploads);
      return;
    }
    if total == 0 || |names| == 0 {
      return Outcome(Err(IndexError), [], []);
    }
    var r := ConvertAt(ids, names, columns, fmt, uploads, 0);
    if r.Err? {
      return Outcome(Err(r.message), [], []);
    }
    return Outcome(Ok(r.value.name), [r.value], []);
  }

  // ----- properties -----

  /** No format string is rejected: `csv` and `parquet` choose their own writer and
      extension, anything else the workbook and `.xlsx`. */
  lemma FormatSpec(s: string)
    ensures Extension(FormatOf(s)) == (if s == "csv" || s == "parquet" then "." + s else ".xlsx")
    ensures FormatOf(s) == Xlsx <==> s != "csv" && s != "parquet"
  {
  }

  /**
   * One file: a missing upload fails with the `open` error and a malformed one with its
   * parse error. A parsed one fails for Parquet when a column it has is requested twice,
   * and for a workbook when it has more than 1048576 records; otherwise the artifact is
   * named after the upload's base name with the format's extension and holds the
   * projected table, split into sheets for a workbook.
   */
  lemma OutputSpec(fid: string, fname: string, columns: seq<string>, fmt: Format, uploads: map<string, Document>)
    ensures var r := Output(fid, fname, columns, fmt, uploads);
      (fid !in uploads ==> r == Err(Missing(fid))) &&
      (fid in uploads && uploads[fid].Malformed? ==> r == Err(uploads[fid].message))
    ensures fid in uploads && uploads[fid].Parsed? ==>
      var doc := uploads[fid];
      var r := Output(fid, fname, columns, fmt, uploads);
      var kept := Kept(doc, columns);
      var rows := |Detect.RowsOf(doc.root)|;
      (r.Ok? <==> (fmt == Parquet ==> AskedOnce(columns, DataFrameOf(doc).value.columns)) &&
                  (fmt == Xlsx ==> rows <= MaxRows)) &&
      (fmt == Parquet && r.Err? ==> r.message == DuplicateColumns(kept.columns)) &&
      (fmt == Xlsx && r.Err? ==> r.message == TooLarge(rows, Min(|kept.columns|, MaxCols))) &&
      (r.Ok? ==>
        r.value.name == Stem(fname) + Extension(fmt) &&
        r.value.content == (match fmt
          case Csv => CsvTable(kept)
          case Parquet => ParquetTable(kept)
          case Xlsx => Workbook(SheetsOf(kept))))
  {
    if fid in uploads && uploads[fid].Parsed? {
      KeptDistinct(uploads[fid], columns);
      KeptRows(uploads[fid], columns);
      RenderSpec(Kept(uploads[fid], columns), fmt);
    } else if fid in uploads {
      DataFrameRows(uploads[fid]);
    }
  }

  /** Every file that converts gets its upload's base name and the format's extension. */
  lemma OutputsNamed(ids: seq<string>, names: seq<string>, columns: seq<string>, fmt: Format, uploads: map<string, Document>)
    ensures var outs := Outputs(ids, names, columns, fmt, uploads);
      forall k :: 0 <= k < |outs| && outs[k].Ok? ==> outs[k].value.name == Stem(names[k]) + Extension(fmt)
  {
    var outs := Outputs(ids, names, columns, fmt, uploads);
    forall k | 0 <= k < |outs| && outs[k].Ok? ensures outs[k].value.name == Stem(names[k]) + Extension(fmt) {
      OutputSpec(ids[k], names[k], columns, fmt, uploads);
    }
  }

  /**
   * The archive loop from file `i` on writes the members of the files before the first
   * failure (all of them when none fails), in order, with one report per member numbered
   * from `i + 1` and carrying the file's name; it gives the archive name, or the first
   * failure's message.
   */
  lemma {:induction false} ArchiveFromSpec(outs: seq<Result<Artifact>>, names: seq<string>, total: nat, i: nat,
                                           written: seq<Artifact>, progress: seq<Progress>)
    requires |outs| <= |names| && i <= |outs|
    ensures var o := ArchiveFrom(outs, names, total, i, written, progress);
      var stop := match FirstFailure(outs, i) case None => |outs| case Some(f) => f;
      o.result == (match FirstFailure(outs, i) case None => Ok(ArchiveName) case Some(f) => Err(outs[f].message)) &&
      |o.written| == |written| + stop - i && |o.progress| == |progress| + stop - i &&
      o.written[..|written|] == written && o.progress[..|progress|] == progress &&
      (forall k :: i <= k < stop ==>
        o.written[|written| + k - i] == outs[k].value &&
        o.progress[|progress| + k - i] == Progress(k + 1, total, names[k]))
    decreases |outs| - i
  {
    if i < |outs| && outs[i].Ok? {
      var w := written + [outs[i].value];
      var p := progress + [Progress(i + 1, total, names[i])];
      ArchiveFromSpec(outs, names, total, i + 1, w, p);
      var o := ArchiveFrom(outs, names, total, i + 1, w, p);
      assert o.written[..|written|] == w[..|written|] && o.written[|written|] == w[|written|] by {
        assert o.written[..|w|] == w;
        assert o.written[..|written|] == o.written[..|w|][..|written|];
        assert o.written[|written|] == o.written[..|w|][|written|];
      }
      assert o.progress[..|progress|] == p[..|progress|] && o.progress[|progress|] == p[|progress|] by {
        assert o.progress[..|p|] == p;
        assert o.progress[..|progress|] == o.progress[..|p|][..|progress|];
        assert o.progress[|progress|] == o.progress[..|p|][|progress|];
      }
    }
  }

  /** The archive loop over a whole list of outcomes, from the first file with nothing
      written yet. */
  lemma ArchiveOf(outs: seq<Result<Artifact>>, names: seq<string>, total: nat)
    requires |outs| <= |names|
    ensures var o := ArchiveFrom(outs, names, total, 0, [], []);
      var stop := match FirstFailure(outs, 0) case None => |outs| case Some(f) => f;
      o.result == (match FirstFailure(outs, 0) case None => Ok(ArchiveName) case Some(f) => Err(outs[f].message)) &&
      |o.written| == stop && |o.progress| == stop &&
      (forall k :: 0 <= k < stop ==>
        o.written[k] == outs[k].value && o.progress[k] == Progress(k + 1, total, names[k]))
  {
    ArchiveFromSpec(outs, names, total, 0, [], []);
    var o := ArchiveFrom(outs, names, total, 0, [], []);
    var stop := match FirstFailure(outs, 0) case None => |outs| case Some(f) => f;
    forall k | 0 <= k < stop
      ensures o.written[k] == outs[k].value
      ensures o.progress[k] == Progress(k + 1, total, names[k])
    {
      assert o.written[0 + k - 0] == outs[k].value;
      assert o.progress[0 + k - 0] == Progress(k + 1, total, names[k]);
    }
  }

  /**
   * More than one file: the result is `converted_files.zip` when every file converts and
   * the first failure's message otherwise; the archive holds the members of the files
   * before that failure, in input order (each named `base.ext`, by `OutputsNamed`), and
   * after file `k` (from 1) the report says `k` of `|ids|` with that file's name.
   */
  lemma ArchiveSpec(ids: seq<string>, names: seq<string>, columns: seq<string>, fmt: Format, uploads: map<string, Document>)
    requires |ids| > 1
    ensures var outs := Outputs(ids, names, columns, fmt, uploads);
      var o := TaskOutcome(ids, names, columns, fmt, uploads);
      var stop := match FirstFailure(outs, 0) case None => |outs| case Some(f) => f;
      o.result == (match FirstFailure(outs, 0) case None => Ok(ArchiveName) case Some(f) => Err(outs[f].message)) &&
      |o.written| == stop && |o.progress| == stop &&
      (forall k :: 0 <= k < stop ==>
        o.written[k] == outs[k].value && o.progress[k] == Progress(k + 1, |ids|, names[k]))
  {
    var outs := Outputs(ids, names, columns, fmt, uploads);
    assert TaskOutcome(ids, names, columns, fmt, uploads) == ArchiveFrom(outs, names, |ids|, 0, [], []);
    ArchiveOf(outs, names, |ids|);
  }

  /** The reports of the archive loop count up by one from 1 with a constant total; when
      there are fewer names than ids the count stops short of the total even though every
      file converted. */
  lemma ProgressSpec(ids: seq<string>, names: seq<string>, columns: seq<string>, fmt: Format, uploads: map<string, Document>)
    requires |ids| > 1
    ensures var p := TaskOutcome(ids, names, columns, fmt, uploads).progress;
      (forall k :: 0 <= k < |p| ==> p[k].current == k + 1 && p[k].total == |ids|) &&
      |p| <= Pairs(ids, names) &&
      (TaskOutcome(ids, names, columns, fmt, uploads).result.Ok? ==> |p| == Pairs(ids, names)) &&
      (|names| < |ids| ==> |p| < |ids|)
  {
    ArchiveSpec(ids, names, columns, fmt, uploads);
  }

  /** Two converted files with the same base name give two members under one name:
      nothing is renamed or dropped. */
  lemma DuplicateBases(ids: seq<string>, names: seq<string>, columns: seq<string>, fmt: Format, uploads: map<string, Document>, k: nat, l: nat)
    requires |ids| > 1 && k < l < Pairs(ids, names) && Stem(names[k]) == Stem(names[l])
    requires forall m :: 0 <= m <= l ==> Outputs(ids, names, columns, fmt, uploads)[m].Ok?
    ensures var w := TaskOutcome(ids, names, columns, fmt, uploads).written;
      l < |w| && w[k].name == w[l].name &&
      w[k] == Outputs(ids, names, columns, fmt, uploads)[k].value &&
      w[l] == Outputs(ids, names, columns, fmt, uploads)[l].value
  {
    ArchiveSpec(ids, names, columns, fmt, uploads);
    var outs := Outputs(ids, names, columns, fmt, uploads);
    if FirstFailure(outs, 0).Some? {
      assert outs[FirstFailure(outs, 0).value].Err?;
    }
    OutputsNamed(ids, names, columns, fmt, uploads);
    assert outs[k].value.name == Stem(names[k]) + Extension(fmt);
    assert outs[l].value.name == Stem(names[l]) + Extension(fmt);
  }

  /** One file: the result is the artifact's own name `base.ext`, the artifact is the only
      file written and no report is issued; an empty id list fails on `file_ids[0]`. */
  lemma SingleSpec(ids: seq<string>, names: seq<string>, columns: seq<string>, fmt: Format, uploads: map<string, Document>)
    requires |ids| <= 1
    ensures var o := TaskOutcome(ids, names, columns, fmt, uploads);
      o.progress == [] &&
      (|ids| == 0 || |names| == 0 ==> o == Outcome(Err(IndexError), [], [])) &&
      (|ids| == 1 && |names| > 0 ==>
        var r := Output(ids[0], names[0], columns, fmt, uploads);
        (r.Ok? ==> o.result == Ok(Stem(names[0]) + Extension(fmt)) && o.written == [r.value]) &&
        (r.Err? ==> o.result == Err(r.message) && o.written == []))
  {
    if |ids| == 1 && |names| > 0 {
      OutputSpec(ids[0], names[0], columns, fmt, uploads);
    }
  }
}
