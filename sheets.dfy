/**
 * The xlsx writer's column limit (app.py:326-336, tasks.py:47-55, tasks.py:87-95): a table
 * wider than 16384 columns is written as consecutive column slices on sheets `Rows_1`,
 * `Rows_2`, ...; any other table goes on one sheet named `Rows`. Slicing does nothing for
 * rows: `to_excel` refuses any sheet of more than 1048576 rows.
 */
module Sheets {
  import opened Wrappers
  import opened Text
  import opened Normalize
  import opened Table

  /** `MAX_COLS`: the most columns one Excel sheet holds. */
  const MaxCols: nat := 16384

  /** The most rows `to_excel` writes to one sheet. */
  const MaxRows: nat := 1048576

  datatype Sheet = Sheet(name: string, frame: Frame)

  /** The `ValueError` `to_excel` raises for a sheet beyond the limits. */
  function TooLarge(rows: nat, cols: nat): string {
    "This sheet is too large! Your sheet size is: " + NatToString(rows) + ", " + NatToString(cols)
      + " Max sheet size is: 1048576, 16384"
  }

  /** `frame.to_excel(writer, sheet_name=name, index=False)`: the sheet, or the size error. */
  function ToExcel(name: string, frame: Frame): Result<Sheet> {
    if |frame.rows| > MaxRows || |frame.columns| > MaxCols then Err(TooLarge(|frame.rows|, |frame.columns|))
    else Ok(Sheet(name, frame))
  }

  function Min(a: int, b: int): int {
    if a <= b then a else b
  }

  /** `df.iloc[:, start:end]`: every row, the columns from `start` up to `end`. */
  function Slice(f: Frame, start: nat, end: nat): Frame
    requires Rectangular(f) && start <= end <= |f.columns|
  {
    Frame(f.columns[start..end], seq(|f.rows|, i requires 0 <= i < |f.rows| => f.rows[i][start..end]))
  }

  /** `f"Rows_{part}"` */
  function PartName(part: nat): string {
    "Rows_" + NatToString(part)
  }

  /** The sheets the slicing loop writes from column `start` on, numbered from `part`. */
  function SheetsFrom(f: Frame, start: nat, part: nat): seq<Sheet>
    requires Rectangular(f) && start <= |f.columns|
    decreases |f.columns| - start
  {
    if start == |f.columns| then []
    else
      var end := Min(start + MaxCols, |f.columns|);
      [Sheet(PartName(part), Slice(f, start, end))] + SheetsFrom(f, end, part + 1)
  }

  /** The sheets written for a table. */
  function SheetsOf(f: Frame): seq<Sheet>
    requires Rectangular(f)
  {
    if |f.columns| > MaxCols then SheetsFrom(f, 0, 1) else [Sheet("Rows", f)]
  }

  /** What the writer block gives for a table: its sheets, or the error of the first
      sheet `to_excel` refuses, which is the first one when there are too many rows. */
  function WorkbookOf(f: Frame): Result<seq<Sheet>>
    requires Rectangular(f)
  {
    if |f.rows| > MaxRows then Err(TooLarge(|f.rows|, Min(|f.columns|, MaxCols))) else Ok(SheetsOf(f))
  }

  /** The sheet-writing block: the slicing loop for a wide table, a single `Rows` sheet
      otherwise; the first refused sheet ends it. */
  method WriteSheets(f: Frame) returns (r: Result<seq<Sheet>>)
    requires Rectangular(f)
    ensures r == WorkbookOf(f)
  {
    if |f.columns| > MaxCols {
      r := WriteSlices(f);
    } else {
      var sheet := ToExcel("Rows", f);
      if sheet.Err? {
        return Err(sheet.message);
      }
      return Ok([sheet.value]);
    }
  }

  /** The `while start < df.shape[1]` loop: one sheet `Rows_{part}` per slice of at most
      `MaxCols` columns. */
  method WriteSlices(f: Frame) returns (r: Result<seq<Sheet>>)
    requires Rectangular(f) && |f.columns| > MaxCols
    ensures r == WorkbookOf(f)
  {
    var n := |f.columns|;
    var start := 0;
    var part := 1;
    var sheets := [];
    while start < n
      invariant start <= n
      invariant start > 0 ==> |f.rows| <= MaxRows
      invariant sheets + SheetsFrom(f, start, part) == SheetsFrom(f, 0, 1)
      decreases n - start
    {
      var end := Min(start + MaxCols, n);
      var sheet := ToExcel(PartName(part), Slice(f, start, end));
      if sheet.Err? {
        return Err(sheet.message);
      }
      sheets := sheets + [sheet.value];
      part := part + 1;
      start := end;
    }
    assert sheets + [] == sheets;
    return Ok(sheets);
  }

  // ----- what the sheets hold -----

  /** The number of slices of width `MaxCols` that cover `w` columns. */
  function SliceCount(w: nat): nat {
    (w + MaxCols - 1) / MaxCols
  }

  /** One slice of width `MaxCols` covers up to `MaxCols` columns; beyond that it takes
      one more than the rest needs. */
  lemma SliceCountStep(w: nat)
    requires w > 0
    ensures SliceCount(w) == if w <= MaxCols then 1 else SliceCount(w - MaxCols) + 1
  {
  }

  /** There are as many sheets from column `start` on as slices cover the rest. */
  lemma {:induction false} SheetsFromCount(f: Frame, start: nat, part: nat)
    requires Rectangular(f) && start <= |f.columns|
    ensures |SheetsFrom(f, start, part)| == SliceCount(|f.columns| - start)
    decreases |f.columns| - start
  {
    var n := |f.columns|;
    if start < n {
      var end := Min(start + MaxCols, n);
      SheetsFromCount(f, end, part + 1);
      SliceCountStep(n - start);
      assert |SheetsFrom(f, start, part)| == 1 + |SheetsFrom(f, end, part + 1)|;
      if end < n {
        assert n - end == n - start - MaxCols;
      }
    } else {
      assert SliceCount(0) == 0;
    }
  }

  /** Sheet `k` from column `start` on is named `Rows_{part + k}` and holds every row,
      restricted to the columns from `start + k * MaxCols` up to the next multiple or the
      last column. */
  lemma {:induction false} SheetAt(f: Frame, start: nat, part: nat, k: nat)
    requires Rectangular(f) && start <= |f.columns| && k < |SheetsFrom(f, start, part)|
    ensures start + k * MaxCols < Min(start + (k + 1) * MaxCols, |f.columns|)
    ensures SheetsFrom(f, start, part)[k] ==
      Sheet(PartName(part + k), Slice(f, start + k * MaxCols, Min(start + (k + 1) * MaxCols, |f.columns|)))
    decreases k
  {
    var n := |f.columns|;
    var end := Min(start + MaxCols, n);
    if k > 0 {
      var rest := SheetsFrom(f, end, part + 1);
      assert SheetsFrom(f, start, part)[k] == rest[k - 1];
      SheetAt(f, end, part + 1, k - 1);
      assert end == start + MaxCols by {
        assert |rest| > 0;
      }
      assert end + (k - 1) * MaxCols == start + k * MaxCols;
      assert end + k * MaxCols == start + (k + 1) * MaxCols;
      assert part + 1 + (k - 1) == part + k;
    }
  }

  /**
   * From column `start` on, sheet `k` is named `Rows_{part + k}` and holds every row,
   * restricted to the columns from `start + k * MaxCols` up to the next multiple or the
   * last column; there are as many sheets as slices of that width cover the rest.
   */
  lemma SheetsFromSpec(f: Frame, start: nat, part: nat)
    requires Rectangular(f) && start <= |f.columns|
    ensures |SheetsFrom(f, start, part)| == SliceCount(|f.columns| - start)
    ensures forall k :: 0 <= k < |SheetsFrom(f, start, part)| ==>
      start + k * MaxCols < Min(start + (k + 1) * MaxCols, |f.columns|) &&
      SheetsFrom(f, start, part)[k] ==
        Sheet(PartName(part + k), Slice(f, start + k * MaxCols, Min(start + (k + 1) * MaxCols, |f.columns|)))
  {
    SheetsFromCount(f, start, part);
    forall k | 0 <= k < |SheetsFrom(f, start, part)|
      ensures start + k * MaxCols < Min(start + (k + 1) * MaxCols, |f.columns|)
      ensures SheetsFrom(f, start, part)[k] ==
        Sheet(PartName(part + k), Slice(f, start + k * MaxCols, Min(start + (k + 1) * MaxCols, |f.columns|)))
    {
      SheetAt(f, start, part, k);
    }
  }

  /** The columns of the sheets one after the other. */
  function SheetColumns(sheets: seq<Sheet>): seq<string> {
    if sheets == [] then [] else sheets[0].frame.columns + SheetColumns(sheets[1..])
  }

  /** Row `i` of the sheets, put back together. */
  function SheetRow(sheets: seq<Sheet>, i: nat): seq<Option<Value>>
    requires forall s :: s in sheets ==> i < |s.frame.rows|
  {
    if sheets == [] then [] else sheets[0].frame.rows[i] + SheetRow(sheets[1..], i)
  }

  /** The slices put back side by side give the table's columns and each of its rows from
      `start` on: nothing is lost, duplicated or reordered. */
  lemma {:induction false} SheetsFromJoin(f: Frame, start: nat, part: nat, i: nat)
    requires Rectangular(f) && start <= |f.columns| && i < |f.rows|
    ensures forall s :: s in SheetsFrom(f, start, part) ==> |s.frame.rows| == |f.rows|
    ensures SheetColumns(SheetsFrom(f, start, part)) == f.columns[start..]
    ensures SheetRow(SheetsFrom(f, start, part), i) == f.rows[i][start..]
    decreases |f.columns| - start
  {
    var n := |f.columns|;
    if start < n {
      var end := Min(start + MaxCols, n);
      SheetsFromJoin(f, end, part + 1, i);
      var s := SheetsFrom(f, start, part);
      assert s[1..] == SheetsFrom(f, end, part + 1);
      assert f.columns[start..] == f.columns[start..end] + f.columns[end..];
      assert f.rows[i][start..] == f.rows[i][start..end] + f.rows[i][end..];
    }
  }

  /**
   * The sheets for a table. Up to 16384 columns: one sheet `Rows` holding the table.
   * Beyond: sheets `Rows_1 .. Rows_k`, `k` the number of 16384-wide slices covering the
   * columns, each with every row; all but the last exactly 16384 columns wide, the last
   * between 1 and 16384; put side by side they give back the columns and every row.
   */
  lemma SheetsSpec(f: Frame)
    requires Rectangular(f)
    ensures |f.columns| <= MaxCols ==> SheetsOf(f) == [Sheet("Rows", f)]
    ensures |f.columns| > MaxCols ==>
      |SheetsOf(f)| == SliceCount(|f.columns|) >= 2 &&
      (forall k :: 0 <= k < |SheetsOf(f)| ==> SheetsOf(f)[k].name == PartName(k + 1)) &&
      (forall k :: 0 <= k < |SheetsOf(f)| - 1 ==> |SheetsOf(f)[k].frame.columns| == MaxCols) &&
      0 < |SheetsOf(f)[|SheetsOf(f)| - 1].frame.columns| <= MaxCols &&
      SheetColumns(SheetsOf(f)) == f.columns &&
      (forall s :: s in SheetsOf(f) ==> |s.frame.rows| == |f.rows|) &&
      (forall i :: 0 <= i < |f.rows| ==> SheetRow(SheetsOf(f), i) == f.rows[i])
  {
    if |f.columns| > MaxCols {
      assert SheetsOf(f) == SheetsFrom(f, 0, 1);
      WideNames(f);
      WideWidths(f);
      SheetsFromColumns(f, 0, 1);
      WideRows(f);
    }
  }

  lemma WideNames(f: Frame)
    requires Rectangular(f) && |f.columns| > MaxCols
    ensures |SheetsFrom(f, 0, 1)| == SliceCount(|f.columns|) >= 2
    ensures forall k :: 0 <= k < |SheetsFrom(f, 0, 1)| ==> SheetsFrom(f, 0, 1)[k].name == PartName(k + 1)
  {
    SheetsFromSpec(f, 0, 1);
    var s := SheetsFrom(f, 0, 1);
    forall k | 0 <= k < |s| ensures s[k].name == PartName(k + 1) {
      assert s[k] == Sheet(PartName(1 + k), Slice(f, 0 + k * MaxCols, Min(0 + (k + 1) * MaxCols, |f.columns|)));
      assert 1 + k == k + 1;
    }
  }

  lemma WideWidths(f: Frame)
    requires Rectangular(f) && |f.columns| > MaxCols
    ensures SheetsFrom(f, 0, 1) != []
    ensures forall k :: 0 <= k < |SheetsFrom(f, 0, 1)| - 1 ==> |SheetsFrom(f, 0, 1)[k].frame.columns| == MaxCols
    ensures 0 < |SheetsFrom(f, 0, 1)[|SheetsFrom(f, 0, 1)| - 1].frame.columns| <= MaxCols
  {
    var n := |f.columns|;
    var s := SheetsFrom(f, 0, 1);
    assert s != [];
    forall k | 0 <= k < |s| - 1 ensures |s[k].frame.columns| == MaxCols {
      SheetAt(f, 0, 1, k);
      SheetAt(f, 0, 1, k + 1);
      assert (k + 1) * MaxCols < n;
    }
    var last := |s| - 1;
    SheetAt(f, 0, 1, last);
    assert 0 + last * MaxCols < Min(0 + (last + 1) * MaxCols, n) <= (last + 1) * MaxCols;
  }

  lemma WideRows(f: Frame)
    requires Rectangular(f) && |f.columns| > MaxCols
    ensures forall s :: s in SheetsFrom(f, 0, 1) ==> |s.frame.rows| == |f.rows|
    ensures forall i :: 0 <= i < |f.rows| ==> SheetRow(SheetsFrom(f, 0, 1), i) == f.rows[i]
  {
    SheetsFromSpec(f, 0, 1);
    var sheets := SheetsFrom(f, 0, 1);
    forall s | s in sheets ensures |s.frame.rows| == |f.rows| {
      var k :| 0 <= k < |sheets| && sheets[k] == s;
      assert s.frame == Slice(f, k * MaxCols, Min((k + 1) * MaxCols, |f.columns|));
    }
    forall i | 0 <= i < |f.rows| ensures SheetRow(SheetsFrom(f, 0, 1), i) == f.rows[i] {
      SheetsFromJoin(f, 0, 1, i);
    }
  }

  /** The slices' columns side by side give the columns from `start` on. */
  lemma {:induction false} SheetsFromColumns(f: Frame, start: nat, part: nat)
    requires Rectangular(f) && start <= |f.columns|
    ensures SheetColumns(SheetsFrom(f, start, part)) == f.columns[start..]
    decreases |f.columns| - start
  {
    var n := |f.columns|;
    if start < n {
      var end := Min(start + MaxCols, n);
      SheetsFromColumns(f, end, part + 1);
      assert SheetsFrom(f, start, part)[1..] == SheetsFrom(f, end, part + 1);
      assert f.columns[start..] == f.columns[start..end] + f.columns[end..];
    }
  }

  /**
   * A table is written exactly when it has at most 1048576 rows, whatever its width, and
   * then every sheet fits both limits; otherwise the size error names the row count and
   * the width of the first sheet.
   */
  lemma WorkbookSpec(f: Frame)
    requires Rectangular(f)
    ensures WorkbookOf(f).Ok? <==> |f.rows| <= MaxRows
    ensures WorkbookOf(f).Ok? ==> forall s :: s in WorkbookOf(f).value ==>
      ToExcel(s.name, s.frame) == Ok(s) && |s.frame.rows| == |f.rows|
    ensures WorkbookOf(f).Err? ==> WorkbookOf(f).message == TooLarge(|f.rows|, Min(|f.columns|, MaxCols))
  {
    SheetsSpec(f);
    if |f.rows| <= MaxRows && |f.columns| > MaxCols {
      WideWidths(f);
      var sheets := SheetsOf(f);
      forall s | s in sheets ensures |s.frame.columns| <= MaxCols {
        var k :| 0 <= k < |sheets| && sheets[k] == s;
        if k < |sheets| - 1 {
          assert |sheets[k].frame.columns| == MaxCols;
        }
      }
    }
  }

  /** 1048576 rows still fit; one more fails before any sheet is written, however narrow. */
  lemma RowThreshold(f: Frame, g: Frame)
    requires Rectangular(f) && |f.rows| == 1048576
    requires Rectangular(g) && |g.rows| == 1048577 && |g.columns| == 1
    ensures WorkbookOf(f).Ok?
    ensures WorkbookOf(g) == Err(TooLarge(1048577, 1))
  {
  }

  /** 20000 columns go on two sheets, `Rows_1` with 16384 columns and `Rows_2` with 3616. */
  lemma TwentyThousandColumns(f: Frame)
    requires Rectangular(f) && |f.columns| == 20000
    ensures |SheetsOf(f)| == 2
    ensures SheetsOf(f)[0].name == PartName(1) && |SheetsOf(f)[0].frame.columns| == 16384
    ensures SheetsOf(f)[1].name == PartName(2) && |SheetsOf(f)[1].frame.columns| == 3616
  {
    SheetsFromSpec(f, 0, 1);
    assert SliceCount(20000) == 2;
  }

  /** Exactly 16384 columns still fit one `Rows` sheet; one more needs a second sheet. */
  lemma SplitThreshold(f: Frame, g: Frame)
    requires Rectangular(f) && |f.columns| == 16384
    requires Rectangular(g) && |g.columns| == 16385
    ensures SheetsOf(f) == [Sheet("Rows", f)]
    ensures |SheetsOf(g)| == 2 && |SheetsOf(g)[1].frame.columns| == 1
  {
    SheetsFromSpec(g, 0, 1);
    assert SliceCount(16385) == 2;
  }
}
