/** The context formatter (`format_products_for_ai`): the text block that
    shows the chosen catalog rows to the language model, one labelled line
    per field and a divider after each product. */
module Formatter {
  import opened Text
  import opened Catalog

  /** Returned when there is no product to show. */
  const NoProducts: string := "No hay productos disponibles en el catalogo."

  const Title: string := "Catalogo de productos LeafLink:"

  /** The title followed by a blank line. */
  const Header: string := Title + "\n\n"

  /** `"=" * 50`. */
  const Rule: string := Repeat('=', 50)

  /** What ends every product block: a blank line, the rule, a blank line. */
  const Divider: string := "\n" + Rule + "\n\n"

  const KindLabel: string := "Tipo: "
  const NameLabel: string := "Nombre: "
  const AttributeLabel: string := "Nombre cientifico/atributo: "
  const DescriptionLabel: string := "Descripcion: "
  const PriceLabel: string := "Precio: $"
  const StockLabel: string := "Stock disponible: "
  const FeaturesLabel: string := "Caracteristicas: "
  const UseLabel: string := "Uso recomendado: "

  /** The six lines every product block starts with. */
  function FixedLines(r: Row): seq<string>
  {
    [ KindLabel + r.tipo,
      NameLabel + r.nombre,
      AttributeLabel + r.atributo1,
      DescriptionLabel + r.descripcion,
      PriceLabel + r.precioMxn + " MXN",
      StockLabel + IntToString(r.stock) ]
  }

  /** The labelled line of an optional field: there only when the field is
      present. */
  function OptionalLine(caption: string, field: string): seq<string>
  {
    if field != "" then [caption + field] else []
  }

  /** "Caracteristicas" only for a present `atributo_2`, "Uso recomendado"
      only for a present `atributo_3`. */
  function OptionalLines(r: Row): seq<string>
  {
    OptionalLine(FeaturesLabel, r.atributo2) + OptionalLine(UseLabel, r.atributo3)
  }

  /** The divider's blank line, rule and blank line. */
  const DividerLines: seq<string> := ["", Rule, ""]

  /** The lines of one product block, without their newline characters. */
  function BlockLines(r: Row): seq<string>
  {
    FixedLines(r) + OptionalLines(r) + DividerLines
  }

  /** The text of one product block. */
  function Block(r: Row): string
  {
    JoinLines(BlockLines(r))
  }

  /** The blocks of the products, in order. */
  function Blocks(products: seq<Row>): string
  {
    ConcatMap(Block, products)
  }

  /** What `format_products_for_ai(products)` returns: the fixed sentence
      exactly when there are no products, and otherwise a text that starts
      with the header. */
  function Format(products: seq<Row>): (text: string)
    ensures text == NoProducts <==> products == []
    ensures products != [] ==> |Header| <= |text| && text[..|Header|] == Header
  {
    if products == [] then NoProducts
    else
      PrefixOfAppend(Header, Blocks(products));
      assert (Header + Blocks(products))[0] != NoProducts[0];
      Header + Blocks(products)
  }

  /** `format_products_for_ai`: starts from the header and appends each
      product's block in turn. */
  method FormatProductsForAi(products: seq<Row>) returns (formattedText: string)
    ensures formattedText == Format(products)
  {
    if products == [] {
      return NoProducts;
    }
    formattedText := Header;
    for i := 0 to |products|
      invariant formattedText == Header + Blocks(products[..i])
    {
      formattedText := AppendBlock(formattedText, products[i]);
      assert products[..i + 1] == products[..i] + [products[i]];
      ConcatMapSnoc(Block, products, i);
      AppendAssoc(Header, Blocks(products[..i]), Block(products[i]));
    }
    assert products[..|products|] == products;
  }

  /** The body of the source's loop for one product: its lines one at a time,
      the optional ones only when present, then the divider. */
  method AppendBlock(text: string, product: Row) returns (text': string)
    ensures text' == text + Block(product)
  {
    text' := text;
    ghost var lines: seq<string> := [];
    text', lines := AppendLine(text', text, lines, KindLabel + product.tipo);
    text', lines := AppendLine(text', text, lines, NameLabel + product.nombre);
    text', lines := AppendLine(text', text, lines, AttributeLabel + product.atributo1);
    text', lines := AppendLine(text', text, lines, DescriptionLabel + product.descripcion);
    text', lines := AppendLine(text', text, lines, PriceLabel + product.precioMxn + " MXN");
    text', lines := AppendLine(text', text, lines, StockLabel + IntToString(product.stock));
    assert lines == FixedLines(product);
    text', lines := AppendOptional(text', text, lines, FeaturesLabel, product.atributo2);
    text', lines := AppendOptional(text', text, lines, UseLabel, product.atributo3);
    AppendAssoc(FixedLines(product), OptionalLine(FeaturesLabel, product.atributo2),
                OptionalLine(UseLabel, product.atributo3));
    assert BlockLines(product) == lines + DividerLines;
    DividerIsLines();
    JoinLinesAppend(lines, DividerLines);
    assert Block(product) == JoinLines(lines) + Divider;
    ghost var written := text';
    text' := text' + ("\n" + Rule + "\n\n");
    AppendAssoc(text, JoinLines(lines), Divider);
    assert written == text + JoinLines(lines);
    assert text' == (text + JoinLines(lines)) + Divider;
    assert text' == text + (JoinLines(lines) + Divider);
  }

  /** `text += line + "\n"`, with the lines written so far as a ghost record. */
  method AppendLine(text: string, ghost before: string, ghost lines: seq<string>, line: string)
    returns (text': string, ghost lines': seq<string>)
    requires text == before + JoinLines(lines)
    ensures text' == text + line + "\n"
    ensures lines' == lines + [line]
    ensures text' == before + JoinLines(lines')
  {
    text' := text + line + "\n";
    lines' := lines + [line];
    JoinLinesAppend(lines, [line]);
    assert JoinLines([line]) == line + "\n";
  }

  /** `if field: text += caption + field + "\n"`. */
  method AppendOptional(text: string, ghost before: string, ghost lines: seq<string>,
                        caption: string, field: string)
    returns (text': string, ghost lines': seq<string>)
    requires text == before + JoinLines(lines)
    ensures field == "" ==> text' == text
    ensures field != "" ==> text' == text + caption + field + "\n"
    ensures lines' == lines + OptionalLine(caption, field)
    ensures text' == before + JoinLines(lines')
  {
    if field != "" {
      text', lines' := AppendLine(text, before, lines, caption + field);
    } else {
      text', lines' := text, lines;
      assert lines' == lines + [];
    }
  }

  // ---------------------------------------------------------------------------
  // Structure of the text
  // ---------------------------------------------------------------------------

  lemma DividerIsLines()
    ensures Divider == JoinLines(DividerLines)
  {
    assert JoinLines([""]) == "\n";
    assert JoinLines([Rule, ""]) == Rule + "\n" + "\n";
  }

  /** Every product block ends with the divider. */
  lemma BlockEndsWithDivider(r: Row)
    ensures |Block(r)| >= |Divider|
    ensures Block(r)[|Block(r)| - |Divider|..] == Divider
  {
    JoinLinesAppend(FixedLines(r) + OptionalLines(r), DividerLines);
    DividerIsLines();
  }

  /** Block `i` stands in the text right after the header and the blocks of
      the products before it: one block per product, in the products' order. */
  lemma FormatLayout(products: seq<Row>, i: nat)
    requires i < |products|
    ensures OccursAt(Format(products), Block(products[i]), |Header| + |Blocks(products[..i])|)
  {
    var before := Blocks(products[..i]);
    var b := Block(products[i]);
    var after := Blocks(products[i + 1..]);
    ConcatMapAround(Block, products, i);
    var text := Format(products);
    assert text == Header + ((before + b) + after);
    AppendAssoc(Header, before + b, after);
    AppendAssoc(Header, before, b);
    assert text == (Header + before) + b + after;
    OccursInMiddle(Header + before, b, after);
  }

  // ---------------------------------------------------------------------------
  // The text read line by line
  // ---------------------------------------------------------------------------

  /** No field of the row holds a newline character. */
  predicate SingleLineFields(r: Row)
  {
    NoNewline(r.tipo) && NoNewline(r.nombre) && NoNewline(r.atributo1)
    && NoNewline(r.descripcion) && NoNewline(r.precioMxn)
    && NoNewline(r.atributo2) && NoNewline(r.atributo3)
  }

  /** The lines of all product blocks, in order. */
  function AllBlockLines(products: seq<Row>): seq<string>
  {
    if products == [] then [] else BlockLines(products[0]) + AllBlockLines(products[1..])
  }

  predicate AllNoNewline(ls: seq<string>)
  {
    forall k :: 0 <= k < |ls| ==> NoNewline(ls[k])
  }

  lemma AllNoNewlineAppend(a: seq<string>, b: seq<string>)
    requires AllNoNewline(a) && AllNoNewline(b)
    ensures AllNoNewline(a + b)
  {
    forall k | 0 <= k < |a + b|
      ensures NoNewline((a + b)[k])
    {
      if k >= |a| {
        assert (a + b)[k] == b[k - |a|];
      }
    }
  }

  lemma NoNewlineJoin(a: string, b: string)
    requires NoNewline(a) && NoNewline(b)
    ensures NoNewline(a + b)
  {
    forall k | 0 <= k < |a + b|
      ensures (a + b)[k] != '\n'
    {
      if k >= |a| {
        assert (a + b)[k] == b[k - |a|];
      }
    }
  }

  /** A label followed by a single-line field is a single line. */
  lemma LabelledLine(caption: string, field: string)
    requires forall k :: 0 <= k < |caption| ==> caption[k] != '\n'
    requires NoNewline(field)
    ensures NoNewline(caption + field)
  {
    NoNewlineJoin(caption, field);
  }

  lemma BlockLinesAreLines(r: Row)
    requires SingleLineFields(r)
    ensures AllNoNewline(BlockLines(r))
  {
    var s := IntToString(r.stock);
    assert NoNewline(s) by {
      forall k | 0 <= k < |s| ensures s[k] != '\n' {
        assert IsDigit(s[k]) || s[k] == '-';
      }
    }
    LabelledLine(KindLabel, r.tipo);
    LabelledLine(NameLabel, r.nombre);
    LabelledLine(AttributeLabel, r.atributo1);
    LabelledLine(DescriptionLabel, r.descripcion);
    LabelledLine(PriceLabel, r.precioMxn);
    LabelledLine(PriceLabel + r.precioMxn, " MXN");
    LabelledLine(StockLabel, s);
    LabelledLine(FeaturesLabel, r.atributo2);
    LabelledLine(UseLabel, r.atributo3);
    assert AllNoNewline(FixedLines(r));
    assert AllNoNewline(OptionalLines(r));
    assert NoNewline(Rule);
    assert AllNoNewline(DividerLines);
    AllNoNewlineAppend(FixedLines(r), OptionalLines(r));
    AllNoNewlineAppend(FixedLines(r) + OptionalLines(r), DividerLines);
  }

  /** Read line by line, a block is its lines, whatever text follows it. */
  lemma BlockReadsAsLines(r: Row, rest: string)
    requires SingleLineFields(r)
    ensures Lines(Block(r) + rest) == BlockLines(r) + Lines(rest)
  {
    BlockLinesAreLines(r);
    LinesOfJoin(BlockLines(r), rest);
  }

  lemma {:induction false} BlocksReadAsLines(products: seq<Row>)
    requires forall k :: 0 <= k < |products| ==> SingleLineFields(products[k])
    ensures Lines(Blocks(products)) == AllBlockLines(products) + [""]
  {
    if products == [] {
      assert Lines(Blocks(products)) == [""];
    } else {
      BlocksReadAsLines(products[1..]);
      BlockReadsAsLines(products[0], Blocks(products[1..]));
      assert Blocks(products) == Block(products[0]) + Blocks(products[1..]);
    }
  }

  /** When no field spans several lines, the formatted text reads as the
      title, a blank line, the lines of each block in product order, and
      nothing after the last divider. */
  lemma FormatReadsAsLines(products: seq<Row>)
    requires products != []
    requires forall k :: 0 <= k < |products| ==> SingleLineFields(products[k])
    ensures Lines(Format(products)) == [Title, ""] + (AllBlockLines(products) + [""])
  {
    var body := Blocks(products);
    BlocksReadAsLines(products);
    HeaderReadsAsLines(body);
    var text := Format(products);
    assert text == Header + body;
    assert Lines(text) == [Title, ""] + (AllBlockLines(products) + [""]);
  }

  /** Read line by line, the header is the title and a blank line, whatever
      text follows it. */
  lemma HeaderReadsAsLines(rest: string)
    ensures Lines(Header + rest) == [Title, ""] + Lines(rest)
  {
    HeaderIsLines();
    LinesOfJoin([Title, ""], rest);
  }

  /** The header is the title line and a blank line. */
  lemma HeaderIsLines()
    ensures Header == JoinLines([Title, ""])
    ensures AllNoNewline([Title, ""])
  {
    assert JoinLines([""]) == "\n";
    assert NoNewline(Title);
  }

  predicate HasLineStartingWith(lines: seq<string>, prefix: string)
  {
    exists k :: 0 <= k < |lines| && prefix <= lines[k]
  }

  lemma HasLineAppend(a: seq<string>, b: seq<string>, prefix: string)
    ensures HasLineStartingWith(a + b, prefix) <==>
            HasLineStartingWith(a, prefix) || HasLineStartingWith(b, prefix)
  {
    if HasLineStartingWith(a + b, prefix) {
      var k :| 0 <= k < |a + b| && prefix <= (a + b)[k];
      if k >= |a| {
        assert b[k - |a|] == (a + b)[k];
      }
    }
    if HasLineStartingWith(a, prefix) {
      var k :| 0 <= k < |a| && prefix <= a[k];
      assert (a + b)[k] == a[k];
    }
    if HasLineStartingWith(b, prefix) {
      var k :| 0 <= k < |b| && prefix <= b[k];
      assert (a + b)[|a| + k] == b[k];
      assert prefix <= (a + b)[|a| + k];
    }
  }

  /** No fixed line and no divider line starts with the label of an optional line. */
  lemma OtherLinesHaveOtherLabels(r: Row, prefix: string)
    requires prefix == FeaturesLabel || prefix == UseLabel
    ensures !HasLineStartingWith(FixedLines(r), prefix)
    ensures !HasLineStartingWith(DividerLines, prefix)
  {
    var fixed := FixedLines(r);
    assert prefix[0] == 'C' || prefix[0] == 'U';
    forall k | 0 <= k < 6
      ensures !(prefix <= fixed[k])
    {
      assert fixed[k][0] == 'T' || fixed[k][0] == 'N' || fixed[k][0] == 'D'
          || fixed[k][0] == 'P' || fixed[k][0] == 'S';
    }
    assert Rule[0] == '=';
  }

  /** An optional line starts with its own label exactly when it is there,
      and never with a label that starts with another letter. */
  lemma OptionalLineLabel(caption: string, field: string, other: string)
    requires caption != [] && other != [] && caption[0] != other[0]
    ensures HasLineStartingWith(OptionalLine(caption, field), caption) <==> field != ""
    ensures !HasLineStartingWith(OptionalLine(caption, field), other)
  {
    if field != "" {
      assert caption <= OptionalLine(caption, field)[0];
    }
  }

  /** The "Caracteristicas" line is there exactly when `atributo_2` is present. */
  lemma FeaturesLineIff(r: Row)
    ensures HasLineStartingWith(BlockLines(r), FeaturesLabel) <==> r.atributo2 != ""
  {
    var features := OptionalLine(FeaturesLabel, r.atributo2);
    var uses := OptionalLine(UseLabel, r.atributo3);
    OtherLinesHaveOtherLabels(r, FeaturesLabel);
    OptionalLineLabel(FeaturesLabel, r.atributo2, UseLabel);
    OptionalLineLabel(UseLabel, r.atributo3, FeaturesLabel);
    HasLineAppend(FixedLines(r) + OptionalLines(r), DividerLines, FeaturesLabel);
    HasLineAppend(FixedLines(r), OptionalLines(r), FeaturesLabel);
    HasLineAppend(features, uses, FeaturesLabel);
  }

  /** The "Uso recomendado" line is there exactly when `atributo_3` is present. */
  lemma UseLineIff(r: Row)
    ensures HasLineStartingWith(BlockLines(r), UseLabel) <==> r.atributo3 != ""
  {
    var features := OptionalLine(FeaturesLabel, r.atributo2);
    var uses := OptionalLine(UseLabel, r.atributo3);
    OtherLinesHaveOtherLabels(r, UseLabel);
    OptionalLineLabel(FeaturesLabel, r.atributo2, UseLabel);
    OptionalLineLabel(UseLabel, r.atributo3, FeaturesLabel);
    HasLineAppend(FixedLines(r) + OptionalLines(r), DividerLines, UseLabel);
    HasLineAppend(FixedLines(r), OptionalLines(r), UseLabel);
    HasLineAppend(features, uses, UseLabel);
  }

  /** In every block the six fixed lines come first and in this order: Tipo,
      Nombre, Nombre cientifico/atributo, Descripcion, Precio, Stock
      disponible; the price carries "$" before it and " MXN" after it, and the
      stock reads back as the row's stock count. */
  lemma FixedLinesInOrder(r: Row)
    ensures |BlockLines(r)| >= 9
    ensures BlockLines(r)[..6] == FixedLines(r)
    ensures KindLabel <= BlockLines(r)[0] && NameLabel <= BlockLines(r)[1]
         && AttributeLabel <= BlockLines(r)[2] && DescriptionLabel <= BlockLines(r)[3]
         && PriceLabel <= BlockLines(r)[4] && StockLabel <= BlockLines(r)[5]
    ensures BlockLines(r)[4] == "Precio: $" + r.precioMxn + " MXN"
    ensures ParseInt(BlockLines(r)[5][|StockLabel|..]) == r.stock
  {
    var lines := BlockLines(r);
    var fixed := FixedLines(r);
    AppendAssoc(fixed, OptionalLines(r), DividerLines);
    PrefixOfAppend(fixed, OptionalLines(r) + DividerLines);
    forall k | 0 <= k < 6
      ensures lines[k] == fixed[k]
    {
      assert lines[..6][k] == lines[k];
    }
    PrefixOfAppend(KindLabel, r.tipo);
    PrefixOfAppend(NameLabel, r.nombre);
    PrefixOfAppend(AttributeLabel, r.atributo1);
    PrefixOfAppend(DescriptionLabel, r.descripcion);
    PrefixOfAppend(PriceLabel, r.precioMxn + " MXN");
    AppendAssoc(PriceLabel, r.precioMxn, " MXN");
    PrefixOfAppend(StockLabel, IntToString(r.stock));
    IntToStringRoundTrip(r.stock);
    assert |lines| >= 9;
    assert lines[5][|StockLabel|..] == IntToString(r.stock);
    assert lines[4] == PriceLabel + r.precioMxn + " MXN";
    assert KindLabel <= lines[0] && NameLabel <= lines[1];
    assert AttributeLabel <= lines[2] && DescriptionLabel <= lines[3];
    assert PriceLabel <= lines[4] && StockLabel <= lines[5];
  }

  /** A block names its product and shows its price, at the positions returned. */
  lemma BlockMentions(r: Row) returns (p: nat, q: nat)
    ensures OccursAt(Block(r), r.nombre, p)
    ensures OccursAt(Block(r), r.precioMxn, q)
  {
    var lines := BlockLines(r);
    assert lines[1] == NameLabel + r.nombre + "";
    assert lines[4] == PriceLabel + r.precioMxn + " MXN";
    JoinedLineAt(lines, 1);
    OccursInMiddle(NameLabel, r.nombre, "");
    OccursWithin(Block(r), lines[1], LineStart(lines, 1), r.nombre, |NameLabel|);
    p := LineStart(lines, 1) + |NameLabel|;
    JoinedLineAt(lines, 4);
    OccursInMiddle(PriceLabel, r.precioMxn, " MXN");
    OccursWithin(Block(r), lines[4], LineStart(lines, 4), r.precioMxn, |PriceLabel|);
    q := LineStart(lines, 4) + |PriceLabel|;
  }

  /** The formatted text names every product it is given and shows its price. */
  lemma FormatMentionsEveryProduct(products: seq<Row>, i: nat)
    requires i < |products|
    ensures Contains(Format(products), products[i].nombre)
    ensures Contains(Format(products), products[i].precioMxn)
  {
    var r := products[i];
    var text := Format(products);
    var start := |Header| + |Blocks(products[..i])|;
    FormatLayout(products, i);
    var p, q := BlockMentions(r);
    OccursWithin(text, Block(r), start, r.nombre, p);
    OccursWithin(text, Block(r), start, r.precioMxn, q);
  }
}
