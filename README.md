# Extrator XML – IBS/CBS: a Dafny model of its data path

The application reads NF-e invoices (XML), extracts one row per item that
carries the IBS/CBS tax block, shows totals on a dashboard, and appends the
extracted rows to the "LANCAMENTOS" sheet of a spreadsheet template, keeping
the template's formulas and formats. This project models the parts of
`app.py` that decide something:

- `_local`: strips the `{namespace}` prefix from an XML tag (`NfeXml.Local`,
  built on `NfeXml.SplitOnce`, which models `str.split(sep, 1)`).
- `_parse_date` and `_parse_nnf`: try several lookup paths in order and keep
  the first text that is present, non-empty and parses (`NfeXml.FirstUsable`,
  `NfeXml.FirstParsed`).
- `_parse_items_from_xml`: the loop over the `det` items, as the method
  `NfeXml.ParseItems`. It is proved against the filter `NfeXml.Kept` and the
  row builder `NfeXml.RowFor`.
- `_append_to_workbook`: the choice of sheet (`Sheet.SheetIndex`) and the
  in-place update of that sheet. `Sheet.Worksheet` is a class holding a cell
  grid plus openpyxl's `max_row` and `max_column`. Its methods `Headers`,
  `FirstRow`, `WriteRow` and `Append` follow the source's three loops. They
  are proved against the specification functions `HeaderMap`, `NextRow` and
  `WriteRows`, and the lemmas give those functions' meaning: which cells
  change, which never change, and that the header row is never written.
- `money`: the three-step `,`/`.` swap through the marker `X` and the
  `"R$ 0,00"` fallback (`Money`). It is proved to turn a `"{:,.2f}"`-style
  amount such as `1,234.56` into the Brazilian `1.234,56`, and back.
- `Export` joins the two halves. The extracted rows become data-frame rows,
  and the lemmas say where the file name, the date and "Fonte do valor" end
  up in the sheet.

The XML tree and the workbook file are abstracted. A parsed document is its
lists of lookup texts and its `det` items, each with an optional `xProd` and
an optional IBSCBS block. A sheet is a map from (row, column) to a cell
holding a value and a number format. Float and date parsing are parameters
(`parseFloat`, `parseDate`) of the extraction.

The repository is described as a reconciliation engine: key normalisation,
best-candidate selection, alert classification and metrics. `app.py`
contains none of that logic. This model follows the code, and that engine is
not part of it.

Files: `base.dfy` (Option, Date, Python's whitespace and `strip`),
`nfe_xml.dfy`, `worksheet.dfy`, `money.dfy`, `export.dfy`.

## Model

| member | source | states |
|---|---|---|
| `Base.TrimStart` | app.py:298-299 | definition of `lstrip`; its meaning is given by `Base.TrimStartSpec` |
| `Base.TrimEnd` | app.py:298-299 | definition of `rstrip`; its meaning is given by `Base.TrimEndSpec` |
| `Base.Strip` | app.py:298-299 | definition of `strip` as `rstrip` after `lstrip`; its meaning is given by `Base.StripSlice`, `Base.StripEmptyIff` and `Base.StripIdempotent` |
| `Base.TrimStartSpec` | app.py:298-299 | `lstrip` removes exactly the leading whitespace (Python's `isspace` set); the rest is kept and, if non-empty, starts with a non-space |
| `Base.TrimEndSpec` | app.py:298-299 | `rstrip` removes exactly the trailing whitespace; the rest is a prefix ending in a non-space |
| `Base.StripSlice` | app.py:298-299 | `strip` returns a slice of its input with only whitespace cut off on each side; the slice neither starts nor ends with whitespace |
| `Base.StripEmptyIff` | app.py:298-299 | `v.strip()` is empty exactly when `v` is all whitespace, so only a non-blank string can be a header |
| `Base.StripIdempotent` | app.py:298-299 | stripping a stripped header changes nothing |
| `NfeXml.SplitOnce` | app.py:174 | `split("}", 1)` gives one part (the whole text) exactly when there is no `}`; otherwise two parts that join back with `}` around the first `}` |
| `NfeXml.Local` | app.py:172-174 | a tag without `}` is returned unchanged; otherwise the result is exactly the text after the first `}`, a proper suffix of the tag |
| `NfeXml.FirstUsable` | app.py:186-208 | finds the first lookup path whose text is present, non-empty and parses; every earlier path fails one of these tests |
| `NfeXml.FirstParsed` | app.py:182-216 | definition of `_parse_date`/`_parse_nnf`: the parse of the first usable text, `None` when there is none; its meaning is given by `NfeXml.FirstUsable` and `NfeXml.FirstNumberIsFirstNonEmpty` |
| `NfeXml.FirstNumberIsFirstNonEmpty` | app.py:210-216 | the invoice number is the first non-empty `nNF` text; there is one exactly when some path has a non-empty text |
| `NfeXml.Dets` | app.py:235 | definition: the `det` items under `infNFe`, or every `det` of the document when that list is empty; `NfeXml.ParseItems` is stated over it |
| `NfeXml.ToFloat` | app.py:248-252 | definition of `_to_float`: no value for a missing or empty text, else the float conversion, which may give NaN; its use is described by `NfeXml.ParseItems` and `Export.AppendItemSource` |
| `NfeXml.Kept` | app.py:237-241 | every kept item has an IBSCBS block, and no more items come out than go in |
| `NfeXml.KeptConcat` | app.py:236-241 | filtering distributes over concatenation, so kept items stay in document order |
| `NfeXml.KeptMembership` | app.py:236-241 | an item is kept exactly when it is in the document and has an IBSCBS block |
| `NfeXml.RowFor` | app.py:254-273 | definition of the dict built for one item; its meaning is given by `NfeXml.ParseItems` |
| `NfeXml.ParseItems` | app.py:218-275 | unparseable XML yields no rows; otherwise there is one row per item with IBSCBS, in document order, built from that item. Every row has the document's date, number and file name. "Fonte do valor" is "IBSCBS/vBC" exactly when `vBC` parsed, else "" |
| `Sheet.IndexOf` | app.py:287-291 | the first position of a sheet name, or the number of sheets when the name is absent |
| `Sheet.SheetIndex` | app.py:287-291 | the sheet written is "LANCAMENTOS" when the workbook has one, else the active sheet |
| `Sheet.HeaderAt` | app.py:297-299 | definition: the stripped text of a row-1 cell when it is a string that is not blank; its use is given by `Sheet.HeaderMapSpec` |
| `Sheet.HeaderMap` | app.py:294-299 | every header maps to a column within `1..max_column` |
| `Sheet.HeaderMapHas` | app.py:294-299 | each non-blank string header cell puts its stripped text in the map, at that column or a later one |
| `Sheet.HeaderMapLast` | app.py:294-299 | a key maps to a column whose stripped header is that key, and no later column has the same header (a later duplicate replaces an earlier one) |
| `Sheet.HeaderMapSpec` | app.py:294-299 | a key is in the map exactly when some row-1 cell strips to it, and it maps to the last such column |
| `Sheet.HeaderMapInjective` | app.py:294-299 | two different headers never map to the same column, because each column holds one header text |
| `Sheet.HeaderMapKeys` | app.py:294-299 | every key is non-empty and already stripped |
| `Sheet.LastFilledRow` | app.py:307-311 | definition of the backward scan; its meaning is given by `Sheet.LastFilledRowSpec` |
| `Sheet.LastFilledRowSpec` | app.py:307-311 | the backward scan of the "Data" column stops at the largest row in `2..max_row` holding something other than `None` or `""`, or at 1 when there is none |
| `Sheet.NextRow` | app.py:304-312 | definition of the first row written; its meaning is given by `Sheet.NextRowSpec` |
| `Sheet.NextRowSpec` | app.py:304-312 | without a "Data" header, writing starts at `max_row + 1`; with one, right after the last non-empty Data cell below the header, or at row 2. It always starts at row 2 or later |
| `Sheet.Lookup` | app.py:320 | definition of `row.get(f, None)`; used by `Sheet.AppendWrites` |
| `Sheet.Written` | app.py:328-330 | definition: a missing (None/NaN) value is written as `None`; used by `Sheet.AppendWrites` |
| `Sheet.Stored` | app.py:323-331 | definition of one cell write, with the date branch; its meaning is given by `Sheet.WriteRowsField` and `Sheet.AppendWrites` |
| `Sheet.FieldOf` | app.py:315-319 | the field written into a column is one of the nine listed fields that the header map sends to that column; no field is written into any other column |
| `Sheet.WriteFields` | app.py:315-331 | definition of writing one data-frame row; its meaning is given by `Sheet.WriteFieldsCell` |
| `Sheet.WriteRows` | app.py:314-332 | definition of writing the data frame from a start row on; its meaning is given by `Sheet.WriteRowsCell` |
| `Sheet.WriteFieldsCell` | app.py:315-331 | writing one data-frame row changes only that sheet row, and only the columns of mapped fields |
| `Sheet.WriteRowsCell` | app.py:314-332 | the k-th data-frame row is written to sheet row `start + k`, in mapped columns only; every other cell is unchanged |
| `Sheet.WriteRowsField` | app.py:315-332 | with one column per header, field `f` of the k-th row is stored in row `start + k` of the column headed `f`, with the missing-value and date-format rules |
| `Sheet.AppendKeepsHeaderRow` | app.py:293-332 | appending never changes any cell of header row 1 |
| `Sheet.AppendFrame` | app.py:302-332 | a cell outside the appended rows, or in a column whose header is not one of the nine fields, is unchanged |
| `Sheet.AppendWrites` | app.py:320-331 | field `f` of the k-th row lands in row `start + k` of column `f`. A missing (None/NaN) value becomes an empty cell. A date in "Data" gets the format "yyyy-mm-dd"; every other write keeps the cell's format in the model (see "Left out" for openpyxl's own date formats) |
| `Sheet.Worksheet.Put` | app.py:323-331 | storing a cell through `ws.cell(row, column)` grows `max_row`/`max_column` to include it and changes nothing else |
| `Sheet.Worksheet.Headers` | app.py:294-299 | the loop over row 1 builds exactly `HeaderMap` |
| `Sheet.Worksheet.FirstRow` | app.py:304-312 | the `while` scan computes exactly `NextRow` |
| `Sheet.Worksheet.WriteRow` | app.py:315-331 | the loop over the nine fields performs exactly the writes `WriteFields` describes |
| `Sheet.Worksheet.Append` | app.py:280-336 | the sheet after appending is `WriteRows` of the old sheet from `NextRow`; the header row is unchanged; each cell is as `WriteRowsCell` describes; `max_row`/`max_column` stay exact |
| `Money.ReplaceChar` | app.py:417 | a one-character `replace` keeps the length and replaces exactly the occurrences of that character |
| `Money.SwapSeparators` | app.py:417 | definition of the three `replace` calls; its meaning is given by `Money.SwapSeparatorsAt`, `Money.SwapInvolutive` and `Money.AmountToBrazilian` |
| `Money.SwapSeparatorsAt` | app.py:417 | on a text without "X", the three replaces turn every "," into "." and every "." into ",", and keep the length |
| `Money.MarkerIsNotKept` | app.py:417 | wherever the input has an "X", the output has "."; and swapping a text with an "X" twice never gives it back, so the swap is only lossless on marker-free text |
| `Money.SwapInvolutive` | app.py:417 | swapping twice gives back a marker-free text |
| `Money.AmountSwap` | app.py:417 | a grouped two-decimal amount with separators (`,`, `.`) becomes one with (`.`, `,`), and the other way round |
| `Money.AmountToBrazilian` | app.py:417 | a text is a `1,234.56`-style amount exactly when its swap is a `1.234,56`-style amount |
| `Money.FormatMoney` | app.py:413-419 | definition of `money`: the fallback for `None`, NaN and refused values, else the swap of the whole formatted text; its meaning is given by `Money.FallbackIsZero` and `Money.FormatMoneyBrazilian` |
| `Money.SwapConcat` | app.py:417 | swapping a concatenation is concatenating the swaps |
| `Money.FormatMoneyPrefix` | app.py:417 | swapping "R$ " plus the amount leaves the prefix unchanged and swaps the amount |
| `Money.FallbackIsZero` | app.py:413-419 | `None`, NaN and a value `float` refuses all show "R$ 0,00", which is what the amount 0.00 shows |
| `Money.FormatMoneyBrazilian` | app.py:416-417 | a formatted amount is shown as "R$ " followed by the same amount in Brazilian notation, from which the original text is recovered |
| `Export.FrameRow` | app.py:261-273 | a data-frame row built from an extracted item has all nine fields |
| `Export.Number` | app.py:406 | definition: a float column's data-frame cell, NaN for a missing or NaN float; its use is given by `Export.AppendItemSource` and `Export.NaNBaseIsMarkedButEmpty` |
| `Export.Frame` | app.py:406-410 | the data frame has one row per extracted item, in order |
| `Export.AppendItemFile` | app.py:315-332 | the file name of the k-th extracted item lands in its sheet row's "arquivo" column |
| `Export.AppendItemDate` | app.py:324-331 | the k-th item's date lands in the "Data" column with format "yyyy-mm-dd"; a missing date empties the cell |
| `Export.AppendItemSource` | app.py:254-331 | in an appended row, "Fonte do valor" holds "IBSCBS/vBC" exactly when the base text was read as a float; "Valor da operação" holds that float when it is finite and is empty otherwise; so a number there always comes with its source marked |
| `Export.NaNBaseIsMarkedButEmpty` | app.py:250-331 | a base that `float` reads as NaN gets "IBSCBS/vBC" in "Fonte do valor" and an empty "Valor da operação" cell |

## Left out

- The Streamlit page, CSS, sidebar, uploads, filters, tables, KPI cards and download buttons (app.py:24-167, 341-675): user interface.
- Reading uploaded files and ZIP archives, and collecting parse errors (app.py:380-404): I/O.
- `load_workbook` and `wb.save` (app.py:285-286, 334-336): file I/O in a foreign library. The model works on the chosen sheet's cells; `SheetIndex` models only which sheet is chosen.
- `Sheet.Worksheet.Append`: openpyxl's `ws.cell(...)` also creates an empty cell when it only reads one (row 1 and the "Data" column). Those cells lie within `max_row`/`max_column` and read as empty, so the model does not store them.
- ElementTree parsing and the `{*}` wildcard lookups: foreign library. A document is given by the texts at the lookup paths and by its `det` items.
- `_parse_date`'s own text-to-date conversion (`fromisoformat`, the `T` split, the `strptime` fallback; app.py:195-207): a `parseDate` parameter. Only "the first path whose text parses wins" is modelled.
- `_to_float`'s `float(x)` (app.py:248-252): a `parseFloat` parameter, returning a finite value, NaN or nothing. The model keeps that `None` and `""` give no value.
- `NfeXml.Float`: `float("inf")` gives an infinity, which the model cannot represent; `parseFloat` returns only finite values and NaN, so an infinite base or tax value is not modelled.
- `"{:,.2f}".format(float(x))` in `money` (app.py:416): floating-point formatting. The formatted text is the input `Formatted(text)`.
- `pct`, float totals, rates and `_bar_width` (app.py:420-460, 507-518): floating-point arithmetic and formatting.
- The "Valor IBS"/"Valor CBS" string-to-float chains (app.py:432-452): float conversion. The extracted data frame never has those columns.
- `Export.FrameRow`: `pd.to_datetime(..., errors="coerce")` (app.py:408-410) is modelled only as taking a missing date to NaT. A date outside the range of pandas' timestamps can also become NaT, depending on the pandas version; the model always keeps the date.
- `Sheet.Stored`: openpyxl also gives a date written to a cell without a date format a date number format of its own. The model keeps the format for every write other than a date to "Data". The app writes dates only to "Data", so this affects only that column, where the explicit "yyyy-mm-dd" wins.
- The UI's filtering of the data frame before it is written (app.py:668 writes `df_view`): UI. `Sheet.Worksheet.Append` takes any sequence of rows.
- `Base.Date`: the validity of a calendar date is not modelled; dates are compared as values only.
