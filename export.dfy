/** From extracted items to the worksheet: the rows built from the XML
    files become a data frame (`pd.DataFrame(rows_all)`, with "Data"
    coerced to dates) whose rows the writer appends. */
module Export {
  import opened Base
  import opened NfeXml
  import opened Sheet

  /** The data-frame row of one extracted item.  A missing number in a
      float column is NaN, a missing date NaT; a missing invoice number
      stays `None`. */
  function FrameRow(item: ItemRow): (row: Row)
    ensures forall f :: f in Fields ==> f in row
  {
    map["Data" := if item.data.Some? then DateV(item.data.value) else NaN,
        "Numero" := if item.numero.Some? then Str(item.numero.value) else Null,
        "Item/Serviço" := Str(item.item),
        "cClassTrib" := Str(item.cClassTrib),
        "Valor da operação" := Number(item.valor),
        "vIBS" := Number(item.vIBS),
        "vCBS" := Number(item.vCBS),
        "arquivo" := Str(item.arquivo),
        "Fonte do valor" := Str(item.fonte)]
  }

  /** A float column's cell in the data frame: `None` and NaN both become
      NaN there, so only a finite value is a number. */
  function Number(x: Option<Float>): (v: Value)
    ensures v.Num? <==> x.Some? && x.value.Finite?
    ensures v.Num? ==> v.x == x.value.x
    ensures !v.Num? ==> v == NaN
  {
    if x.Some? && x.value.Finite? then Num(x.value.x) else NaN
  }

  /** The relation every extracted row satisfies between its base value
      and its "Fonte do valor". */
  predicate SourceMarked(item: ItemRow) {
    item.fonte == (if item.valor.Some? then VbcSource else "")
  }

  /** The data frame of the extracted items, one row per item. */
  function Frame(items: seq<ItemRow>): (rows: seq<Row>)
    ensures |rows| == |items|
    ensures forall i :: 0 <= i < |items| ==> rows[i] == FrameRow(items[i])
    decreases |items|
  {
    if items == [] then [] else [FrameRow(items[0])] + Frame(items[1..])
  }

  /** The values a data-frame row holds for the date, the file name, the
      base and its source. */
  lemma FrameRowValues(item: ItemRow)
    ensures Lookup(FrameRow(item), DataHeader) == (if item.data.Some? then DateV(item.data.value) else NaN)
    ensures Lookup(FrameRow(item), "arquivo") == Str(item.arquivo)
    ensures Lookup(FrameRow(item), "Valor da operação") == Number(item.valor)
    ensures Lookup(FrameRow(item), "Fonte do valor") == Str(item.fonte)
  {
  }

  /** Appending extracted items, with `h` the sheet's header map and `s`
      the first row written: the k-th item's file name lands in row `s + k`
      of the "arquivo" column. */
  lemma AppendItemFile(g: Grid, n: int, m: int, items: seq<ItemRow>,
                       h: map<string, int>, s: int, k: int)
    requires h == HeaderMap(g, n) && s == NextRow(g, m, h)
    requires 0 <= k < |items| && "arquivo" in h
    ensures CellAt(WriteRows(g, h, s, Frame(items)), s + k, h["arquivo"]).value
            == Str(items[k].arquivo)
  {
    var rows := Frame(items);
    assert rows[k] == FrameRow(items[k]);
    FrameRowValues(items[k]);
    assert "arquivo" == Fields[7];
    AppendWrites(g, n, m, rows, h, s, k, "arquivo");
  }

  /** The k-th item's date lands in the "Data" column with the date format;
      the cell is emptied when the item has no date. */
  lemma AppendItemDate(g: Grid, n: int, m: int, items: seq<ItemRow>,
                       h: map<string, int>, s: int, k: int)
    requires h == HeaderMap(g, n) && s == NextRow(g, m, h)
    requires 0 <= k < |items| && DataHeader in h
    ensures var cell := CellAt(WriteRows(g, h, s, Frame(items)), s + k, h[DataHeader]);
      cell.value == (if items[k].data.Some? then DateV(items[k].data.value) else Null)
      && (items[k].data.Some? ==> cell.numberFormat == DateFormat)
  {
    var rows := Frame(items);
    assert rows[k] == FrameRow(items[k]);
    FrameRowValues(items[k]);
    assert DataHeader == Fields[0];
    AppendWrites(g, n, m, rows, h, s, k, DataHeader);
  }

  /** The cells an appended item gets for its base and its source.
      "Fonte do valor" holds "IBSCBS/vBC" exactly when the base text was
      read as a float; "Valor da operação" holds a number exactly when that
      float is finite, and is empty otherwise.  So a number in "Valor da
      operação" always has its source marked, but a base read as NaN is
      marked and still written as an empty cell. */
  lemma AppendItemSource(g: Grid, n: int, m: int, items: seq<ItemRow>,
                         h: map<string, int>, s: int, k: int)
    requires h == HeaderMap(g, n) && s == NextRow(g, m, h)
    requires 0 <= k < |items| && SourceMarked(items[k])
    requires "Valor da operação" in h && "Fonte do valor" in h
    ensures var g' := WriteRows(g, h, s, Frame(items));
      var valor := CellAt(g', s + k, h["Valor da operação"]).value;
      var fonte := CellAt(g', s + k, h["Fonte do valor"]).value;
      var v := items[k].valor;
      (fonte == Str(VbcSource) <==> v.Some?)
      && valor == (if v.Some? && v.value.Finite? then Num(v.value.x) else Null)
      && (valor.Num? ==> fonte == Str(VbcSource))
  {
    var rows := Frame(items);
    assert rows[k] == FrameRow(items[k]);
    FrameRowValues(items[k]);
    assert "Valor da operação" == Fields[4];
    assert "Fonte do valor" == Fields[8];
    AppendWrites(g, n, m, rows, h, s, k, "Valor da operação");
    AppendWrites(g, n, m, rows, h, s, k, "Fonte do valor");
  }

  /** A base text that `float` reads as NaN (such as "NaN"): the item is
      marked as read from `vBC`, yet its "Valor da operação" cell is left
      empty, because the writer turns every NaN into `None`. */
  lemma NaNBaseIsMarkedButEmpty(g: Grid, n: int, m: int, items: seq<ItemRow>,
                                h: map<string, int>, s: int, k: int)
    requires h == HeaderMap(g, n) && s == NextRow(g, m, h)
    requires 0 <= k < |items| && SourceMarked(items[k]) && items[k].valor == Some(NotANumber)
    requires "Valor da operação" in h && "Fonte do valor" in h
    ensures var g' := WriteRows(g, h, s, Frame(items));
      CellAt(g', s + k, h["Fonte do valor"]).value == Str(VbcSource)
      && CellAt(g', s + k, h["Valor da operação"]).value == Null
  {
    AppendItemSource(g, n, m, items, h, s, k);
  }
}
