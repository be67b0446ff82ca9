/** Appending extracted rows to the "LANCAMENTOS" sheet of a workbook
    template.  A worksheet is a grid of cells addressed by (row, column),
    both counted from 1; row 1 is the header row.  Like openpyxl, the sheet
    knows its `max_row` and `max_column`: the largest row and column of any
    stored cell, and 1 for a sheet without cells.  A cell that was never
    stored reads as an empty cell with the "General" number format. */
module Sheet {
  import opened Base

  /** What a cell holds, and what a data-frame row holds for a column:
      nothing (`None`), pandas' NaN/NaT, text, a number or a date. */
  datatype Value = Null | NaN | Str(s: string) | Num(x: real) | DateV(d: Date)

  datatype Cell = Cell(value: Value, numberFormat: string)

  const EmptyCell := Cell(Null, "General")
  const DateFormat := "yyyy-mm-dd"
  const DataHeader := "Data"
  const TargetSheet := "LANCAMENTOS"

  /** The columns the writer fills, when the sheet has them, in write order. */
  const Fields: seq<string> := ["Data", "Numero", "Item/Serviço", "cClassTrib",
                                "Valor da operação", "vIBS", "vCBS", "arquivo",
                                "Fonte do valor"]

  type Grid = map<(int, int), Cell>

  /** One data-frame row: column name to value. */
  type Row = map<string, Value>

  function Max(a: int, b: int): int {
    if a < b then b else a
  }

  function CellAt(g: Grid, r: int, c: int): Cell {
    if (r, c) in g then g[(r, c)] else EmptyCell
  }

  // ---------------------------------------------------------------------
  // Choosing the sheet
  // ---------------------------------------------------------------------

  /** The position of the first `x` in `names`, `|names|` when absent. */
  function IndexOf(names: seq<string>, x: string): (i: nat)
    ensures i <= |names|
    ensures i < |names| <==> x in names
    ensures i < |names| ==> names[i] == x
    ensures forall j :: 0 <= j < i ==> names[j] != x
    decreases |names|
  {
    if names == [] then 0
    else if names[0] == x then 0
    else 1 + IndexOf(names[1..], x)
  }

  /** The sheet written to: "LANCAMENTOS" when the workbook has one, else
      the active sheet. */
  function SheetIndex(names: seq<string>, active: nat): (i: nat)
    requires active < |names|
    ensures i < |names|
    ensures TargetSheet in names ==> names[i] == TargetSheet
    ensures TargetSheet !in names ==> i == active
  {
    if TargetSheet in names then IndexOf(names, TargetSheet) else active
  }

  // ---------------------------------------------------------------------
  // The header map
  // ---------------------------------------------------------------------

  /** The key that header cell `(1, c)` contributes: the stripped text of a
      string cell that is not blank, nothing for any other cell. */
  function HeaderAt(g: Grid, c: int): Option<string> {
    var v := CellAt(g, 1, c).value;
    if v.Str? && Strip(v.s) != "" then Some(Strip(v.s)) else None
  }

  /** The header map built from columns 1..n, left to right, so a later
      column with the same header replaces an earlier one. */
  function HeaderMap(g: Grid, n: int): (h: map<string, int>)
    ensures forall k :: k in h ==> 1 <= h[k] <= n
    decreases n
  {
    if n <= 0 then map[]
    else
      var h := HeaderMap(g, n - 1);
      var key := HeaderAt(g, n);
      if key.Some? then h[key.value := n] else h
  }

  /** A header cell in columns 1..n puts its key in the map, at that
      column or a later one. */
  lemma {:induction false} HeaderMapHas(g: Grid, n: int, k: string, c: int)
    requires 1 <= c <= n && HeaderAt(g, c) == Some(k)
    ensures k in HeaderMap(g, n) && c <= HeaderMap(g, n)[k]
    decreases n
  {
    if c < n {
      HeaderMapHas(g, n - 1, k, c);
    }
  }

  /** A key maps to a column headed by it, and no later column up to n is. */
  lemma {:induction false} HeaderMapLast(g: Grid, n: int, k: string)
    requires k in HeaderMap(g, n)
    ensures var c := HeaderMap(g, n)[k];
      HeaderAt(g, c) == Some(k) && forall d :: c < d <= n ==> HeaderAt(g, d) != Some(k)
    decreases n
  {
    var h' := HeaderMap(g, n - 1);
    if HeaderAt(g, n) != Some(k) {
      assert k in h' && HeaderMap(g, n)[k] == h'[k];
      HeaderMapLast(g, n - 1, k);
    }
  }

  /** A key is in the header map exactly when some header cell in columns
      1..n strips to it, and it maps to the LAST such column. */
  lemma HeaderMapSpec(g: Grid, n: int, k: string)
    ensures k in HeaderMap(g, n) <==> exists c :: 1 <= c <= n && HeaderAt(g, c) == Some(k)
    ensures k in HeaderMap(g, n) ==>
      var c := HeaderMap(g, n)[k];
      HeaderAt(g, c) == Some(k) && forall d :: c < d <= n ==> HeaderAt(g, d) != Some(k)
  {
    if k in HeaderMap(g, n) {
      HeaderMapLast(g, n, k);
    }
    if c :| 1 <= c <= n && HeaderAt(g, c) == Some(k) {
      HeaderMapHas(g, n, k, c);
    }
  }

  /** No two keys share a column. */
  predicate Injective(h: map<string, int>) {
    forall k1, k2 :: k1 in h && k2 in h && h[k1] == h[k2] ==> k1 == k2
  }

  /** Two keys never share a column. */
  lemma HeaderMapInjective(g: Grid, n: int)
    ensures Injective(HeaderMap(g, n))
  {
    var h := HeaderMap(g, n);
    forall k | k in h ensures HeaderAt(g, h[k]) == Some(k) {
      HeaderMapLast(g, n, k);
    }
  }

  /** Every key is non-empty text without surrounding whitespace. */
  lemma HeaderMapKeys(g: Grid, n: int)
    ensures forall k :: k in HeaderMap(g, n) ==> k != "" && Strip(k) == k
  {
    var h := HeaderMap(g, n);
    forall k | k in h ensures k != "" && Strip(k) == k {
      HeaderMapLast(g, n, k);
      var v := CellAt(g, 1, h[k]).value;
      StripIdempotent(v.s);
    }
  }

  // ---------------------------------------------------------------------
  // The first row to write
  // ---------------------------------------------------------------------

  /** A "Data" cell counts as empty when it holds `None` or `""`. */
  predicate IsBlank(v: Value) {
    v == Null || v == Str("")
  }

  /** The scan up the "Data" column from row `r`: it stops at a non-empty
      cell or when it reaches the header row. */
  function LastFilledRow(g: Grid, c: int, r: int): int
    decreases r
  {
    if r >= 2 && IsBlank(CellAt(g, r, c).value) then LastFilledRow(g, c, r - 1) else r
  }

  /** Started at `top >= 1`, the scan ends at the largest row in `2..top`
      whose cell is not empty, or at 1 when every one of them is empty. */
  lemma {:induction false} LastFilledRowSpec(g: Grid, c: int, top: int)
    requires top >= 1
    ensures var q := LastFilledRow(g, c, top);
      1 <= q <= top
      && (q >= 2 ==> !IsBlank(CellAt(g, q, c).value))
      && forall r :: q < r <= top ==> IsBlank(CellAt(g, r, c).value)
    decreases top
  {
    if top >= 2 && IsBlank(CellAt(g, top, c).value) {
      LastFilledRowSpec(g, c, top - 1);
    }
  }

  /** The row the first appended row goes to. */
  function NextRow(g: Grid, maxRow: int, h: map<string, int>): int {
    if DataHeader in h then Max(LastFilledRow(g, h[DataHeader], maxRow) + 1, 2)
    else maxRow + 1
  }

  /** Without a "Data" header the rows go after `max_row`.  With one they
      go right after the last non-empty "Data" cell below the header, or to
      row 2 when there is none.  Either way row 1 is never written. */
  lemma NextRowSpec(g: Grid, maxRow: int, h: map<string, int>)
    requires maxRow >= 1
    ensures var s := NextRow(g, maxRow, h);
      2 <= s <= maxRow + 1
      && (DataHeader !in h ==> s == maxRow + 1)
      && (DataHeader in h ==>
            (forall r :: s <= r <= maxRow ==> IsBlank(CellAt(g, r, h[DataHeader]).value))
            && (s > 2 ==> !IsBlank(CellAt(g, s - 1, h[DataHeader]).value)))
  {
    if DataHeader in h {
      LastFilledRowSpec(g, h[DataHeader], maxRow);
    }
  }

  // ---------------------------------------------------------------------
  // Writing the rows
  // ---------------------------------------------------------------------

  /** `row.get(f, None)`. */
  function Lookup(row: Row, f: string): Value {
    if f in row then row[f] else Null
  }

  /** A missing value (`pd.isna`) is written as an empty cell. */
  function Written(v: Value): Value {
    if v.Null? || v.NaN? then Null else v
  }

  /** The cell after writing value `v` of field `f` into `cell`: a date in
      the "Data" column also gets the "yyyy-mm-dd" number format; every
      other write keeps the cell's number format. */
  function Stored(cell: Cell, f: string, v: Value): Cell {
    if f == DataHeader && v.DateV? then Cell(v, DateFormat)
    else Cell(Written(v), cell.numberFormat)
  }

  /** The field written into column `c`: the last of `fs` that the header
      map sends to `c`, if any. */
  function FieldOf(h: map<string, int>, fs: seq<string>, c: int): (r: Option<string>)
    ensures r.Some? ==> r.value in fs && r.value in h && h[r.value] == c
    ensures r.None? ==> forall f :: f in fs && f in h ==> h[f] != c
    decreases |fs|
  {
    if fs == [] then None
    else
      var f := fs[|fs| - 1];
      assert fs == fs[..|fs| - 1] + [f];
      if f in h && h[f] == c then Some(f) else FieldOf(h, fs[..|fs| - 1], c)
  }

  /** Writing the fields `fs` of one data-frame row into row `r`. */
  function WriteFields(g: Grid, h: map<string, int>, r: int, row: Row, fs: seq<string>): Grid
    decreases |fs|
  {
    if fs == [] then g
    else
      var g' := WriteFields(g, h, r, row, fs[..|fs| - 1]);
      var f := fs[|fs| - 1];
      if f in h then g'[(r, h[f]) := Stored(CellAt(g', r, h[f]), f, Lookup(row, f))] else g'
  }

  /** Writing `rows` into consecutive sheet rows from `start` on. */
  function WriteRows(g: Grid, h: map<string, int>, start: int, rows: seq<Row>): Grid
    decreases |rows|
  {
    if rows == [] then g
    else
      var n := |rows| - 1;
      WriteFields(WriteRows(g, h, start, rows[..n]), h, start + n, rows[n], Fields)
  }

  /** After writing one row, a cell of that row in a column some field of
      `fs` maps to holds that field's value; every other cell is as before. */
  lemma {:induction false} WriteFieldsCell(g: Grid, h: map<string, int>, r: int, row: Row,
                                          fs: seq<string>, r': int, c: int)
    requires Injective(h)
    ensures CellAt(WriteFields(g, h, r, row, fs), r', c) ==
      if r' == r && FieldOf(h, fs, c).Some?
      then Stored(CellAt(g, r, c), FieldOf(h, fs, c).value, Lookup(row, FieldOf(h, fs, c).value))
      else CellAt(g, r', c)
    decreases |fs|
  {
    if fs != [] {
      WriteFieldsCell(g, h, r, row, fs[..|fs| - 1], r', c);
    }
  }

  /** The cell `(r, c)` after `rows` were written from row `start` on. */
  ghost function AppendedCell(g: Grid, h: map<string, int>, start: int, rows: seq<Row>,
                              r: int, c: int): Cell
  {
    if start <= r < start + |rows| && FieldOf(h, Fields, c).Some?
    then Stored(CellAt(g, r, c), FieldOf(h, Fields, c).value,
                Lookup(rows[r - start], FieldOf(h, Fields, c).value))
    else CellAt(g, r, c)
  }

  /** The k-th row lands in sheet row `start + k`, in the mapped columns
      only; everything else is unchanged. */
  lemma {:induction false} WriteRowsCell(g: Grid, h: map<string, int>, start: int,
                                        rows: seq<Row>, r: int, c: int)
    requires Injective(h)
    ensures CellAt(WriteRows(g, h, start, rows), r, c) == AppendedCell(g, h, start, rows, r, c)
    decreases |rows|
  {
    if rows != [] {
      var n := |rows| - 1;
      WriteRowsCell(g, h, start, rows[..n], r, c);
      WriteFieldsCell(WriteRows(g, h, start, rows[..n]), h, start + n, rows[n], Fields, r, c);
    }
  }

  /** Appending never changes the header row.  Here and below, `h` is the
      header map of a sheet with cells `g` and `max_column` `n`, and `s` the
      first row written when its `max_row` is `m`. */
  lemma AppendKeepsHeaderRow(g: Grid, n: int, m: int, rows: seq<Row>,
                             h: map<string, int>, s: int, c: int)
    requires m >= 1 && h == HeaderMap(g, n) && s == NextRow(g, m, h)
    ensures CellAt(WriteRows(g, h, s, rows), 1, c) == CellAt(g, 1, c)
  {
    HeaderMapInjective(g, n);
    NextRowSpec(g, m, h);
    WriteRowsCell(g, h, s, rows, 1, c);
  }

  /** A cell outside the appended rows, or in a column whose header is not
      one of the nine fields, is unchanged. */
  lemma AppendFrame(g: Grid, n: int, m: int, rows: seq<Row>,
                    h: map<string, int>, s: int, r: int, c: int)
    requires h == HeaderMap(g, n) && s == NextRow(g, m, h)
    requires r < s || s + |rows| <= r || HeaderAt(g, c).None? || HeaderAt(g, c).value !in Fields
    ensures CellAt(WriteRows(g, h, s, rows), r, c) == CellAt(g, r, c)
  {
    HeaderMapInjective(g, n);
    WriteRowsCell(g, h, s, rows, r, c);
    var fo := FieldOf(h, Fields, c);
    if fo.Some? {
      HeaderMapLast(g, n, fo.value);
    }
  }

  /** The k-th data-frame row's value of field `f` lands in row `s + k`
      of the column headed `f`: empty when missing, and with the date format
      when it is a date written to "Data"; other formats are kept. */
  lemma AppendWrites(g: Grid, n: int, m: int, rows: seq<Row>,
                     h: map<string, int>, s: int, k: int, f: string)
    requires h == HeaderMap(g, n) && s == NextRow(g, m, h)
    requires 0 <= k < |rows| && f in Fields && f in h
    ensures var cell := CellAt(WriteRows(g, h, s, rows), s + k, h[f]);
      cell.value == Written(Lookup(rows[k], f))
      && cell.numberFormat == if f == DataHeader && Lookup(rows[k], f).DateV? then DateFormat
                              else CellAt(g, s + k, h[f]).numberFormat
  {
    HeaderMapInjective(g, n);
    WriteRowsField(g, h, s, rows, k, f);
  }

  /** With a one-to-one header map, the cell of field `f` in the k-th
      written row is the stored value of that field. */
  lemma WriteRowsField(g: Grid, h: map<string, int>, s: int, rows: seq<Row>, k: int, f: string)
    requires Injective(h) && 0 <= k < |rows| && f in Fields && f in h
    ensures CellAt(WriteRows(g, h, s, rows), s + k, h[f])
      == Stored(CellAt(g, s + k, h[f]), f, Lookup(rows[k], f))
  {
    assert FieldOf(h, Fields, h[f]) == Some(f);
    WriteRowsCell(g, h, s, rows, s + k, h[f]);
  }

  // ---------------------------------------------------------------------
  // The worksheet
  // ---------------------------------------------------------------------

  class Worksheet {
    var cells: Grid
    var maxRow: int
    var maxColumn: int

    /** `max_row` and `max_column` are the largest row and column of a
        stored cell, and 1 when there is none. */
    ghost predicate Valid()
      reads this
    {
      1 <= maxRow && 1 <= maxColumn
      && (forall p :: p in cells ==> 1 <= p.0 <= maxRow && 1 <= p.1 <= maxColumn)
      && (maxRow == 1 || exists p :: p in cells && p.0 == maxRow)
      && (maxColumn == 1 || exists p :: p in cells && p.1 == maxColumn)
    }

    /** A sheet without cells. */
    constructor Empty()
      ensures Valid() && cells == map[] && maxRow == 1 && maxColumn == 1
    {
      cells, maxRow, maxColumn := map[], 1, 1;
    }

    /** `ws.cell(row=r, column=c)` followed by assignments to the cell:
        the cell is stored, and the sheet's extent grows to include it. */
    method Put(r: int, c: int, cell: Cell)
      requires Valid() && r >= 1 && c >= 1
      modifies this
      ensures Valid()
      ensures cells == old(cells)[(r, c) := cell]
      ensures maxRow == Max(old(maxRow), r) && maxColumn == Max(old(maxColumn), c)
    {
      cells := cells[(r, c) := cell];
      maxRow := Max(maxRow, r);
      maxColumn := Max(maxColumn, c);
      assert (r, c) in cells;
    }

    /** The header map of the sheet: a loop over the columns of row 1. */
    method Headers() returns (headers: map<string, int>)
      requires Valid()
      ensures headers == HeaderMap(cells, maxColumn)
    {
      headers := map[];
      var col := 1;
      while col <= maxColumn
        invariant 1 <= col <= maxColumn + 1
        invariant headers == HeaderMap(cells, col - 1)
      {
        var v := CellAt(cells, 1, col).value;
        if v.Str? && Strip(v.s) != "" {
          headers := headers[Strip(v.s) := col];
        }
        col := col + 1;
      }
    }

    /** The first row to write: after `max_row`, or, when there is a "Data"
        column, after the scan up that column past its empty cells. */
    method FirstRow(headers: map<string, int>) returns (nextRow: int)
      requires Valid()
      ensures nextRow == NextRow(cells, maxRow, headers)
    {
      nextRow := maxRow + 1;
      if DataHeader in headers {
        var c := headers[DataHeader];
        var r := maxRow;
        while r >= 2 && IsBlank(CellAt(cells, r, c).value)
          invariant 1 <= r <= maxRow
          invariant LastFilledRow(cells, c, r) == LastFilledRow(cells, c, maxRow)
        {
          r := r - 1;
        }
        nextRow := Max(r + 1, 2);
      }
    }

    /** Writes the nine fields of one data-frame row into sheet row `r`. */
    method WriteRow(headers: map<string, int>, r: int, row: Row)
      requires Valid() && r >= 1
      requires forall k :: k in headers ==> headers[k] >= 1
      modifies this
      ensures Valid()
      ensures cells == WriteFields(old(cells), headers, r, row, Fields)
    {
      for i := 0 to |Fields|
        invariant Valid()
        invariant cells == WriteFields(old(cells), headers, r, row, Fields[..i])
      {
        var f := Fields[i];
        assert Fields[..i + 1][..i] == Fields[..i];
        if f !in headers {
          continue;
        }
        var c := headers[f];
        var val := Lookup(row, f);
        var cell := CellAt(cells, r, c);
        if f == DataHeader && val.DateV? {
          cell := Cell(val, DateFormat);
        } else {
          if val.Null? || val.NaN? {
            val := Null;
          }
          cell := cell.(value := val);
        }
        Put(r, c, cell);
      }
      assert Fields[..|Fields|] == Fields;
    }

    /** The body of `_append_to_workbook` once the sheet is chosen: build
        the header map from row 1, find the first row to write, and write
        each data-frame row into the mapped columns of consecutive rows. */
    method Append(rows: seq<Row>)
      requires Valid()
      modifies this
      ensures Valid()
      ensures var h := HeaderMap(old(cells), old(maxColumn));
        cells == WriteRows(old(cells), h, NextRow(old(cells), old(maxRow), h), rows)
      ensures forall c :: CellAt(cells, 1, c) == CellAt(old(cells), 1, c)
      ensures var h := HeaderMap(old(cells), old(maxColumn));
        forall r, c :: CellAt(cells, r, c) ==
          AppendedCell(old(cells), h, NextRow(old(cells), old(maxRow), h), rows, r, c)
    {
      var headers := Headers();
      var nextRow := FirstRow(headers);
      ghost var g0 := cells;
      ghost var start := nextRow;
      HeaderMapInjective(g0, maxColumn);
      NextRowSpec(g0, maxRow, headers);
      var k := 0;
      while k < |rows|
        invariant 0 <= k <= |rows| && nextRow == start + k
        invariant Valid()
        invariant cells == WriteRows(g0, headers, start, rows[..k])
      {
        WriteRow(headers, nextRow, rows[k]);
        assert rows[..k + 1][..k] == rows[..k];
        nextRow := nextRow + 1;
        k := k + 1;
      }
      assert rows[..|rows|] == rows;
      forall r, c ensures CellAt(cells, r, c) == AppendedCell(g0, headers, start, rows, r, c) {
        WriteRowsCell(g0, headers, start, rows, r, c);
      }
      forall c ensures CellAt(cells, 1, c) == CellAt(g0, 1, c) {
        WriteRowsCell(g0, headers, start, rows, 1, c);
      }
    }
  }
}
