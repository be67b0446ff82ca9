/** Reading an NF-e document: the namespace-stripping helper, the
    "first path whose text is usable" lookups for the emission date and
    the invoice number, and the extraction of one row per item (`det`)
    that carries an IBS/CBS block.

    The XML tree itself is abstracted: a parsed document is given by the
    texts found at the lookup paths, in the order the paths are tried, and
    by the `det` elements, each with its optional product description and
    its optional IBSCBS block.  Every text is already stripped, as the
    element lookup returns it. */
module NfeXml {
  import opened Base

  // ---------------------------------------------------------------------
  // Namespace stripping
  // ---------------------------------------------------------------------

  /** `s.split(sep, 1)`: one part when `sep` does not occur, otherwise the
      text before the first `sep` and everything after it. */
  function SplitOnce(s: string, sep: char): (parts: seq<string>)
    ensures |parts| == 1 || |parts| == 2
    ensures |parts| == 1 <==> sep !in s
    ensures |parts| == 1 ==> parts[0] == s
    ensures |parts| == 2 ==> s == parts[0] + [sep] + parts[1] && sep !in parts[0]
  {
    if s == [] then [s]
    else if s[0] == sep then ["", s[1..]]
    else
      var t := SplitOnce(s[1..], sep);
      if |t| == 1 then [s]
      else
        assert s == [s[0]] + s[1..];
        [[s[0]] + t[0], t[1]]
  }

  /** `"{ns}Tag" -> "Tag"`: a tag without `}` is returned as it is;
      otherwise the result is exactly the text after the first `}`, so a
      proper suffix of the tag. */
  function Local(tag: string): (r: string)
    ensures '}' !in tag ==> r == tag
    ensures '}' in tag ==>
      var p := |tag| - |r| - 1;
      0 <= p && r == tag[p + 1..] && tag[p] == '}' && '}' !in tag[..p]
  {
    if '}' in tag then
      var parts := SplitOnce(tag, '}');
      assert tag[|parts[0]| + 1..] == parts[1] && tag[..|parts[0]|] == parts[0];
      parts[|parts| - 1]
    else tag
  }

  // ---------------------------------------------------------------------
  // First usable text among several lookup paths
  // ---------------------------------------------------------------------

  /** The path loop skips a missing or empty text (`if not t: continue`)
      and a text that does not parse, and returns the first that parses. */
  predicate Usable<T>(t: Option<string>, parse: string -> Option<T>) {
    t.Some? && t.value != "" && parse(t.value).Some?
  }

  /** The index of the first usable text, or `|texts|` when there is none. */
  function FirstUsable<T>(texts: seq<Option<string>>, parse: string -> Option<T>): (k: nat)
    ensures k <= |texts|
    ensures forall j :: 0 <= j < k ==> !Usable(texts[j], parse)
    ensures k < |texts| ==> Usable(texts[k], parse)
    decreases |texts|
  {
    if texts == [] then 0
    else if Usable(texts[0], parse) then 0
    else 1 + FirstUsable(texts[1..], parse)
  }

  /** `_parse_date` and `_parse_nnf`: the parsed value of the first usable
      text, `None` when no path yields one. */
  function FirstParsed<T>(texts: seq<Option<string>>, parse: string -> Option<T>): Option<T> {
    var k := FirstUsable(texts, parse);
    if k < |texts| then parse(texts[k].value) else None
  }

  /** The invoice number is taken as text: every non-empty text is usable. */
  function AsText(t: string): Option<string> {
    Some(t)
  }

  /** The number found is the first non-empty text, and there is one
      exactly when some path has a non-empty text. */
  lemma {:induction false} FirstNumberIsFirstNonEmpty(texts: seq<Option<string>>)
    ensures var n := FirstParsed(texts, AsText);
      (n.Some? <==> exists i :: 0 <= i < |texts| && texts[i].Some? && texts[i].value != "")
      && (n.Some? ==> exists i :: 0 <= i < |texts| && texts[i] == n && n.value != ""
                        && forall j :: 0 <= j < i ==> texts[j].None? || texts[j].value == "")
  {
    var k := FirstUsable(texts, AsText);
    if k < |texts| {
      assert texts[k].Some? && texts[k].value != "";
      assert texts[k] == FirstParsed(texts, AsText);
    } else {
      forall i | 0 <= i < |texts| ensures !(texts[i].Some? && texts[i].value != "") {
        assert !Usable(texts[i], AsText);
      }
    }
  }

  // ---------------------------------------------------------------------
  // Items
  // ---------------------------------------------------------------------

  /** `imposto/IBSCBS` of one item: the stripped texts of its children. */
  datatype Ibscbs = Ibscbs(cClassTrib: Option<string>, vBC: Option<string>,
                           vIBS: Option<string>, vCBS: Option<string>)

  /** One `det` element: `prod/xProd` and `imposto/IBSCBS`, both optional. */
  datatype Det = Det(xProd: Option<string>, ibscbs: Option<Ibscbs>)

  /** A well-formed document.  `dateTexts` holds the texts at the four
      emission-date paths and `numberTexts` those at the two `nNF` paths,
      in the order they are tried; `infNFeDets` are the items found under
      `infNFe`, `anyDets` the items found anywhere in the document. */
  datatype Document = Document(dateTexts: seq<Option<string>>, numberTexts: seq<Option<string>>,
                               infNFeDets: seq<Det>, anyDets: seq<Det>)

  /** The bytes either fail to parse as XML or give a document. */
  datatype XmlInput = Malformed | WellFormed(root: Document)

  /** A Python float as the extraction can meet one: a finite number, or
      the NaN that `float("nan")` returns.  NaN is a float, not `None`. */
  datatype Float = Finite(x: real) | NotANumber

  /** One extracted row: the nine columns "Data", "Numero", "Item/Serviço",
      "cClassTrib", "Valor da operação", "vIBS", "vCBS", "arquivo" and
      "Fonte do valor". */
  datatype ItemRow = ItemRow(data: Option<Date>, numero: Option<string>, item: string,
                             cClassTrib: string, valor: Option<Float>, vIBS: Option<Float>,
                             vCBS: Option<Float>, arquivo: string, fonte: string)

  /** The value recorded in "Fonte do valor" when the base was read. */
  const VbcSource := "IBSCBS/vBC"

  /** `text or ""`. */
  function OrEmpty(t: Option<string>): string {
    if t.Some? then t.value else ""
  }

  /** `_to_float`: no value for a missing or empty text, else whatever the
      float conversion gives (`None` when it raises, possibly NaN). */
  function ToFloat(t: Option<string>, parseFloat: string -> Option<Float>): Option<Float> {
    if t.None? || t.value == "" then None else parseFloat(t.value)
  }

  /** The items under `infNFe`, or every `det` of the document when there
      are none there. */
  function Dets(doc: Document): seq<Det> {
    if doc.infNFeDets != [] then doc.infNFeDets else doc.anyDets
  }

  /** The items that have an IBSCBS block, in document order. */
  function Kept(dets: seq<Det>): (r: seq<Det>)
    ensures |r| <= |dets|
    ensures forall j :: 0 <= j < |r| ==> r[j].ibscbs.Some?
    decreases |dets|
  {
    if dets == [] then []
    else if dets[0].ibscbs.Some? then [dets[0]] + Kept(dets[1..])
    else Kept(dets[1..])
  }

  /** Filtering distributes over concatenation, so it keeps document order. */
  lemma {:induction false} KeptConcat(a: seq<Det>, b: seq<Det>)
    ensures Kept(a + b) == Kept(a) + Kept(b)
    decreases |a|
  {
    if a != [] {
      assert (a + b)[1..] == a[1..] + b;
      KeptConcat(a[1..], b);
    } else {
      assert a + b == b;
    }
  }

  /** An item is kept exactly when it has an IBSCBS block. */
  lemma {:induction false} KeptMembership(dets: seq<Det>, d: Det)
    ensures d in Kept(dets) <==> d in dets && d.ibscbs.Some?
    decreases |dets|
  {
    if dets != [] {
      KeptMembership(dets[1..], d);
      assert dets == [dets[0]] + dets[1..];
    }
  }

  /** The row built for one kept item. */
  function RowFor(emissao: Option<Date>, nnf: Option<string>, filename: string,
                  det: Det, parseFloat: string -> Option<Float>): ItemRow
    requires det.ibscbs.Some?
  {
    var b := det.ibscbs.value;
    var vbc := ToFloat(b.vBC, parseFloat);
    ItemRow(emissao, nnf, OrEmpty(det.xProd), OrEmpty(b.cClassTrib), vbc,
            ToFloat(b.vIBS, parseFloat), ToFloat(b.vCBS, parseFloat), filename,
            if vbc.Some? then VbcSource else "")
  }

  /** `_parse_items_from_xml`.  Malformed input yields no rows; otherwise
      there is one row per item with an IBSCBS block, in document order,
      each carrying the document's date and number and the file name, with
      "Fonte do valor" set exactly when the base `vBC` was read. */
  method ParseItems(input: XmlInput, filename: string,
                    parseFloat: string -> Option<Float>, parseDate: string -> Option<Date>)
    returns (rows: seq<ItemRow>)
    ensures input.Malformed? ==> rows == []
    ensures input.WellFormed? ==>
      var doc := input.root;
      var kept := Kept(Dets(doc));
      |rows| == |kept|
      && forall j :: 0 <= j < |rows| ==>
           rows[j] == RowFor(FirstParsed(doc.dateTexts, parseDate),
                             FirstParsed(doc.numberTexts, AsText), filename, kept[j], parseFloat)
    ensures forall j :: 0 <= j < |rows| ==>
      rows[j].arquivo == filename
      && (rows[j].fonte == VbcSource <==> rows[j].valor.Some?)
      && (rows[j].valor.None? ==> rows[j].fonte == "")
  {
    if input.Malformed? {
      return [];
    }
    var doc := input.root;
    var emissao := FirstParsed(doc.dateTexts, parseDate);
    var nnf := FirstParsed(doc.numberTexts, AsText);
    rows := [];
    var dets := if doc.infNFeDets != [] then doc.infNFeDets else doc.anyDets;
    for i := 0 to |dets|
      invariant |rows| == |Kept(dets[..i])|
      invariant forall j :: 0 <= j < |rows| ==>
        rows[j] == RowFor(emissao, nnf, filename, Kept(dets[..i])[j], parseFloat)
    {
      var det := dets[i];
      assert dets[..i + 1] == dets[..i] + [det];
      KeptConcat(dets[..i], [det]);
      if det.ibscbs.None? {
        continue;
      }
      var b := det.ibscbs.value;
      var xprod := OrEmpty(det.xProd);
      var cclass := OrEmpty(b.cClassTrib);
      var vbc := ToFloat(b.vBC, parseFloat);
      var vibs := ToFloat(b.vIBS, parseFloat);
      var vcbs := ToFloat(b.vCBS, parseFloat);
      var fonte := if vbc.Some? then VbcSource else "";
      rows := rows + [ItemRow(emissao, nnf, xprod, cclass, vbc, vibs, vcbs, filename, fonte)];
    }
    assert dets[..|dets|] == dets;
  }
}
