/**
 * Ghostwriter::Writer (lib/ghostwriter/writer.rb): the HTML-to-text pipeline. `Writer.Textify`
 * parses the normalised markup into a document, runs the rewriting passes over it in the order
 * the source does, and trims the spaces at the ends of every line of the document's text.
 *
 * Each pass is a method on the document whose contract ties the new document to a function of the
 * old one (the `...Pass` and `...From` functions below); what the passes put into each node is
 * given by the content rules, whose lemmas state what the source promises about that text.
 */
module Ghostwriter {
  import opened Results
  import opened RubyStrings
  import opened Dom
  import opened Documents
  import opened GhostwriterLinks
  import opened GhostwriterTables

  /** '*[role="presentation"]' */
  const Presentational: Selector := WithAttribute(None, "role", "presentation")

  /** 'img[role=presentation]' */
  const PresentationalImage: Selector := WithAttribute(Some("img"), "role", "presentation")

  // ---------------------------------------------------------------------------
  // Content rules
  // ---------------------------------------------------------------------------

  /** A squeezed mark followed by a space keeps both in front of the squeezed rest. */
  lemma SqueezeAfterMark(mark: string, rest: string)
    requires |mark| > 0 && mark[|mark| - 1] != ' ' && NoDoubleSpace(mark)
    ensures StartsWith(Squeeze(mark + " " + rest), mark + " ")
  {
    assert mark + " " + rest == mark + (" " + rest);
    SqueezeConcat(mark, " " + rest);
    SqueezeFixpoint(mark);
    var tail := Squeeze(" " + rest);
    assert tail[0] == ' ';
    assert (mark + tail)[..|mark| + 1] == mark + " ";
  }

  /** What squeezing any text (a mark, a space, the content, a tail) leaves. */
  lemma SqueezeFramed(mark: string, inner: string, tail: string)
    requires |mark| > 0 && mark[|mark| - 1] != ' ' && NoDoubleSpace(mark)
    ensures var r := Squeeze(mark + " " + inner + tail);
      StartsWith(r, mark + " ") && NoDoubleSpace(r) &&
      RemoveChars(r, {' '}) == RemoveChars(mark, {' '}) + RemoveChars(inner, {' '}) + RemoveChars(tail, {' '})
  {
    var s := mark + " " + inner + tail;
    assert s == mark + " " + (inner + tail);
    SqueezeAfterMark(mark, inner + tail);
    SqueezeNoDoubleSpace(s);
    SqueezeKeepsNonSpaces(s);
    RemoveSpaceFramed(mark, inner, tail);
  }

  lemma RemoveSpaceFramed(mark: string, inner: string, tail: string)
    ensures RemoveChars(mark + " " + inner + tail, {' '}) == RemoveChars(mark, {' '}) + RemoveChars(inner, {' '}) + RemoveChars(tail, {' '})
  {
    var a := mark + " ";
    var b := a + inner;
    RemoveCharsConcat(b, tail, {' '});
    RemoveCharsConcat(a, inner, {' '});
    RemoveSpaceAfter(mark);
  }

  lemma RemoveSpaceAfter(mark: string)
    ensures RemoveChars(mark + " ", {' '}) == RemoveChars(mark, {' '})
  {
    RemoveCharsConcat(mark, " ", {' '});
    assert RemoveChars(" ", {' '}) == [] by {
      assert " "[1..] == [];
    }
  }

  /** A text ending in " " + tail, tail a non-space-led piece without double spaces, still ends so when squeezed. */
  lemma SqueezeBeforeTail(head: string, tail: string)
    requires |head| > 0 && head[|head| - 1] == ' '
    requires |tail| > 0 && tail[0] != ' ' && NoDoubleSpace(tail)
    ensures EndsWith(Squeeze(head + tail), [' '] + tail)
  {
    SqueezeConcat(head, tail);
    SqueezeFixpoint(tail);
    LastAndRest(Squeeze(head), tail);
  }

  lemma LastAndRest(a: string, b: string)
    requires |a| > 0
    ensures EndsWith(a + b, [a[|a| - 1]] + b)
  {
    var r := a + b;
    assert r[|a| - 1..] == [a[|a| - 1]] + b by {
      assert r[|a| - 1..][0] == a[|a| - 1];
      assert r[|a| - 1..][1..] == b;
    }
  }

  /** `"-- #{inner} --\n".squeeze(' ')` (writer.rb line 78). */
  function HeaderText(inner: string): (r: string)
    ensures r == CollapseSpaceRuns("-- " + inner + " --\n")
    ensures StartsWith(r, "-- ") && EndsWith(r, " --\n")
    ensures NoDoubleSpace(r)
    ensures RemoveChars(r, {' '}) == "--" + RemoveChars(inner, {' '}) + "--\n"
  {
    HeaderTextFacts(inner);
    Squeeze("-- " + inner + " --\n")
  }

  /** A single space between two words survives: the words of a header never run together. */
  lemma HeaderTextKeepsWordSpace()
    ensures HeaderText("a b") == "-- a b --\n"
  {
    var s := "-- a b --\n";
    assert "-- " + "a b" + " --\n" == s;
    assert NoDoubleSpace(s) by {
      forall i | 0 <= i < |s| - 1 ensures !(s[i] == ' ' && s[i + 1] == ' ') {
      }
    }
    SqueezeFixpoint(s);
  }

  lemma HeaderTextFacts(inner: string)
    ensures var r := Squeeze("-- " + inner + " --\n");
      r == CollapseSpaceRuns("-- " + inner + " --\n") &&
      StartsWith(r, "-- ") && EndsWith(r, " --\n") && NoDoubleSpace(r) &&
      RemoveChars(r, {' '}) == "--" + RemoveChars(inner, {' '}) + "--\n"
  {
    HeaderTextFrame(inner);
    HeaderTextEnd(inner);
    SqueezeIsCollapseSpaceRuns("-- " + inner + " --\n");
  }

  lemma HeaderTextFrame(inner: string)
    ensures var r := Squeeze("-- " + inner + " --\n");
      StartsWith(r, "-- ") && NoDoubleSpace(r) &&
      RemoveChars(r, {' '}) == "--" + RemoveChars(inner, {' '}) + "--\n"
  {
    HeaderPieces();
    SqueezeFramed("--", inner, " --\n");
  }

  /** The fixed pieces of a header line. */
  lemma HeaderPieces()
    ensures "--" + " " == "-- " && NoDoubleSpace("--") && NoDoubleSpace("--\n")
    ensures RemoveChars("--", {' '}) == "--" && RemoveChars(" --\n", {' '}) == "--\n"
    ensures [' '] + "--\n" == " --\n"
  {
    assert RemoveChars("--", {' '}) == "--" by {
      assert "--"[1..] == "-" && "-"[1..] == [];
    }
    assert RemoveChars(" --\n", {' '}) == "--\n" by {
      assert " --\n"[1..] == "--\n" && "--\n"[1..] == "-\n" && "-\n"[1..] == "\n" && "\n"[1..] == [];
    }
  }

  lemma HeaderTextEnd(inner: string)
    ensures EndsWith(Squeeze("-- " + inner + " --\n"), " --\n")
  {
    var head := "-- " + inner + " ";
    HeaderPieces();
    SqueezeBeforeTail(head, "--\n");
    assert "-- " + inner + " --\n" == head + "--\n";
  }

  /** `"- #{inner}\n".squeeze(' ')` (writer.rb line 94). */
  function BulletText(inner: string): (r: string)
    ensures r == CollapseSpaceRuns("- " + inner + "\n")
    ensures StartsWith(r, "- ") && r[|r| - 1] == '\n'
    ensures NoDoubleSpace(r)
    ensures RemoveChars(r, {' '}) == "-" + RemoveChars(inner, {' '}) + "\n"
  {
    BulletTextFacts(inner);
    Squeeze("- " + inner + "\n")
  }

  lemma BulletTextFacts(inner: string)
    ensures var r := Squeeze("- " + inner + "\n");
      r == CollapseSpaceRuns("- " + inner + "\n") &&
      StartsWith(r, "- ") && r[|r| - 1] == '\n' && NoDoubleSpace(r) &&
      RemoveChars(r, {' '}) == "-" + RemoveChars(inner, {' '}) + "\n"
  {
    SqueezeIsCollapseSpaceRuns("- " + inner + "\n");
    var mark, tail := "-", "\n";
    SqueezeFramed(mark, inner, tail);
    assert RemoveChars(mark, {' '}) == mark;
    assert RemoveChars(tail, {' '}) == tail;
    assert "- " + inner + "\n" == mark + " " + inner + tail;
  }

  lemma {:induction false} NoSpaceInDigits(s: string)
    requires forall i :: 0 <= i < |s| ==> IsDigit(s[i])
    ensures NoDoubleSpace(s) && RemoveChars(s, {' '}) == s
  {
    if s != [] {
      NoSpaceInDigits(s[1..]);
      assert s == [s[0]] + s[1..];
    }
  }

  /** `"#{i + 1}. #{inner}\n".squeeze(' ')` for item number k = i + 1 (writer.rb line 99). */
  function NumberedText(k: nat, inner: string): (r: string)
    ensures StartsWith(r, Decimal(k) + ". ") && r[|r| - 1] == '\n'
    ensures NoDoubleSpace(r)
    ensures RemoveChars(r, {' '}) == Decimal(k) + "." + RemoveChars(inner, {' '}) + "\n"
    ensures r == CollapseSpaceRuns(Decimal(k) + ". " + inner + "\n")
  {
    NumberedTextFacts(k, inner);
    Squeeze(Decimal(k) + ". " + inner + "\n")
  }

  lemma NumberedTextFacts(k: nat, inner: string)
    ensures var r := Squeeze(Decimal(k) + ". " + inner + "\n");
      r == CollapseSpaceRuns(Decimal(k) + ". " + inner + "\n") &&
      StartsWith(r, Decimal(k) + ". ") && r[|r| - 1] == '\n' && NoDoubleSpace(r) &&
      RemoveChars(r, {' '}) == Decimal(k) + "." + RemoveChars(inner, {' '}) + "\n"
  {
    SqueezeIsCollapseSpaceRuns(Decimal(k) + ". " + inner + "\n");
    NumberMark(k);
    var d := Decimal(k);
    DotSpace(d);
    MarkedLine(d + ".", inner);
  }

  lemma DotSpace(d: string)
    ensures (d + ".") + " " == d + ". "
  {
  }

  /** A line made of a space-free mark, a space and the content, squeezed. */
  lemma MarkedLine(mark: string, inner: string)
    requires |mark| > 0 && mark[|mark| - 1] != ' ' && NoDoubleSpace(mark) && RemoveChars(mark, {' '}) == mark
    ensures var r := Squeeze(mark + " " + inner + "\n");
      StartsWith(r, mark + " ") && r[|r| - 1] == '\n' && NoDoubleSpace(r) &&
      RemoveChars(r, {' '}) == mark + RemoveChars(inner, {' '}) + "\n"
  {
    SqueezeFramed(mark, inner, "\n");
    assert RemoveChars("\n", {' '}) == "\n";
  }

  /** The "k." in front of a numbered item holds no space. */
  lemma NumberMark(k: nat)
    ensures var mark := Decimal(k) + ".";
      mark[|mark| - 1] != ' ' && NoDoubleSpace(mark) && RemoveChars(mark, {' '}) == mark
  {
    var d := Decimal(k);
    var mark := d + ".";
    DecimalRoundTrip(k);
    NoSpaceInDigits(d);
    assert NoDoubleSpace(mark) by {
      forall i | 0 <= i < |mark| - 1 ensures !(mark[i] == ' ' && mark[i + 1] == ' ') {
        assert mark[i] == d[i] && IsDigit(d[i]);
      }
    }
    RemoveCharsConcat(d, ".", {' '});
    assert RemoveChars(".", {' '}) == "." by {
      assert "."[1..] == [];
    }
  }

  /** The number in front of a numbered item reads back as the item's position, counted from 1. */
  lemma NumberedTextNumber(i: nat, inner: string)
    ensures var r := NumberedText(i + 1, inner);
      var d := Decimal(i + 1);
      |d| + 2 <= |r| && DecimalValue(r[..|d|]) == i + 1 && r[|d|..|d| + 2] == ". "
  {
    var r := NumberedText(i + 1, inner);
    var d := Decimal(i + 1);
    DecimalRoundTrip(i + 1);
    assert r[..|d|] == (d + ". ")[..|d|] == d;
  }

  /**
   * `"#{alt} (#{src})"` for an image: a nil src shows as empty brackets. Knowing the alt text's
   * length, both parts read back from the result.
   */
  function ImageText(alt: string, src: Option<string>): (r: string)
    ensures |r| == |alt| + |Interpolated(src)| + 3
    ensures r[..|alt|] == alt && r[|alt|..|alt| + 2] == " (" && r[|r| - 1] == ')'
    ensures r[|alt| + 2..|r| - 1] == Interpolated(src)
  {
    var r := alt + " (" + Interpolated(src) + ")";
    assert r[..|alt|] == alt;
    assert r[|alt| + 2..|r| - 1] == Interpolated(src);
    r
  }

  // ---------------------------------------------------------------------------
  // The markup each edit computes from the node it edits
  // ---------------------------------------------------------------------------

  function HeaderMarkup(e: Elem): string
  {
    HeaderText(InnerHtml(e))
  }

  function BulletMarkup(e: Elem): string
  {
    BulletText(InnerHtml(e))
  }

  function NumberedMarkup(k: nat): Elem -> string
  {
    e => NumberedText(k, InnerHtml(e))
  }

  /** `"\n#{node.inner_html}\n"` for a list. */
  function ListMarkup(e: Elem): string
  {
    "\n" + InnerHtml(e) + "\n"
  }

  predicate HasAlt(e: Elem)
  {
    var alt := Attribute(e.attrs, "alt");
    alt.Some? && alt.value != []
  }

  function ImageMarkup(e: Elem): string
  {
    var alt := Attribute(e.attrs, "alt");
    ImageText(Interpolated(alt), Attribute(e.attrs, "src"))
  }

  function AnchorContent(href: string): Elem -> string
  {
    e => AnchorMarkup(href, InnerHtml(e))
  }

  function CellContent(width: nat): Elem -> string
  {
    e => CellMarkup(InnerHtml(e), width)
  }

  function HeadContent(sizes: seq<nat>): Elem -> string
  {
    e => InnerHtml(e) + Underline(sizes) + "\n"
  }

  // ---------------------------------------------------------------------------
  // The passes, as functions of the document
  // ---------------------------------------------------------------------------

  /** A method's outcome together with the document it leaves. */
  function Outcome(r: Result<()>, t: Tree): Result<Tree>
  {
    if r.Ok? then Ok(t) else Raised(r.error)
  }

  /** `replace_anchors`: each anchor's href is resolved (which may raise) and its content rewritten. */
  function AnchorsFrom(t: Tree, p: Parser, uri: string -> UriKind, linkBase: string, links: seq<Elem>): Result<Tree>
    decreases |links|
  {
    if links == [] then Ok(t)
    else
      match ResolveHref(Attribute(links[0].attrs, "href"), uri, LinkBase(t.roots, linkBase))
      case Raised(e) => Raised(e)
      case Ok(href) => AnchorsFrom(Apply(t, p, links[0].id, SetInner(AnchorContent(href))), p, uri, linkBase, links[1..])
  }

  /** The `doc.search('img').each` loop of `replace_images`. */
  function ImagesFrom(t: Tree, p: Parser, images: seq<Elem>): Tree
    decreases |images|
  {
    if images == [] then t
    else ImagesFrom(if HasAlt(images[0]) then Apply(t, p, images[0].id, Replace(ImageMarkup)) else t, p, images[1..])
  }

  function ImagesPass(t: Tree, p: Parser): Tree
  {
    var t1 := Each(t, p, Search(t.roots, PresentationalImage), Remove);
    ImagesFrom(t1, p, Search(t1.roots, Tags({"img"})))
  }

  /** `simple_replace(doc, css, replacement)`. */
  function SimpleReplacePass(t: Tree, p: Parser, sel: Selector, replacement: string): Tree
  {
    Each(t, p, Search(t.roots, sel), Replace(Append(replacement)))
  }

  function HeadersPass(t: Tree, p: Parser): Tree
  {
    Each(t, p, Search(t.roots, Headings), SetInner(HeaderMarkup))
  }

  /** `each_with_index` over the items of one ordered list, numbered from k. */
  function NumberItems(t: Tree, p: Parser, items: seq<Elem>, k: nat): Tree
    decreases |items|
  {
    if items == [] then t else NumberItems(Apply(t, p, items[0].id, SetInner(NumberedMarkup(k))), p, items[1..], k + 1)
  }

  /** `doc.search('ol').each`: the direct `li` children of each list still in the document are numbered. */
  function NumberLists(t: Tree, p: Parser, lists: seq<Elem>): Tree
    decreases |lists|
  {
    if lists == [] then t
    else
      var t' := match Find(t.roots, lists[0].id)
                case None => t
                case Some(ol) => NumberItems(t, p, Children(ol.kids, "li"), 1);
      NumberLists(t', p, lists[1..])
  }

  function ListsPass(t: Tree, p: Parser): Tree
  {
    var t1 := Each(t, p, Search(t.roots, Descendant("ul", "li")), SetInner(BulletMarkup));
    var t2 := NumberLists(t1, p, Search(t1.roots, Tags({"ol"})));
    Each(t2, p, Search(t2.roots, Tags({"ol", "ul"})), Replace(ListMarkup))
  }

  /** `row.search('th', 'td')`: all header cells, then all data cells. */
  function RowCells(row: Elem): seq<Elem>
  {
    Search(row.kids, Tags({"th"})) + Search(row.kids, Tags({"td"}))
  }

  function CellLengths(row: Elem): (r: seq<nat>)
    ensures |r| == |RowCells(row)|
    ensures forall i :: 0 <= i < |r| ==> r[i] == |InnerHtml(RowCells(row)[i])|
  {
    var cells := RowCells(row);
    seq(|cells|, i requires 0 <= i < |cells| => |InnerHtml(cells[i])|)
  }

  /** The cell lengths of every `tr` below the table, nested tables included (`table.search('tr')`). */
  function Measure(table: Elem): (r: seq<seq<nat>>)
    ensures |r| == |Search(table.kids, Tags({"tr"}))|
    ensures forall i :: 0 <= i < |r| ==> r[i] == CellLengths(Search(table.kids, Tags({"tr"}))[i])
  {
    var rows := Search(table.kids, Tags({"tr"}));
    seq(|rows|, i requires 0 <= i < |rows| => CellLengths(rows[i]))
  }

  /** `calculate_column_sizes(table)`. */
  function CalculateColumnSizes(table: Elem): Result<seq<nat>>
  {
    ColumnSizes(Measure(table))
  }

  /** `table.search('./thead/tr', './tbody/tr', './tr')`. */
  function TableRows(table: Elem): seq<Elem>
  {
    Grandchildren(table.kids, "thead", "tr") + Grandchildren(table.kids, "tbody", "tr") + Children(table.kids, "tr")
  }

  /** `replace_table_nodes`: cell i is padded to column_sizes[i] + 2; a missing size is nil + 2. */
  function CellsFrom(t: Tree, p: Parser, cells: seq<Elem>, sizes: seq<nat>, i: nat): Result<Tree>
    decreases |cells|
  {
    if cells == [] then Ok(t)
    else if i >= |sizes| then Raised(NoMethodError)
    else CellsFrom(Apply(t, p, cells[0].id, SetInner(CellContent(sizes[i]))), p, cells[1..], sizes, i + 1)
  }

  /** The row loop of `replace_tables`: cells are padded, then the row gets "|\n". */
  function RowsFrom(t: Tree, p: Parser, rows: seq<Elem>, sizes: seq<nat>): Result<Tree>
    decreases |rows|
  {
    if rows == [] then Ok(t)
    else
      match Find(t.roots, rows[0].id)
      case None => RowsFrom(t, p, rows[1..], sizes)
      case Some(row) =>
        match CellsFrom(t, p, RowCells(row), sizes, 0)
        case Raised(e) => Raised(e)
        case Ok(t1) => RowsFrom(Apply(t1, p, row.id, SetInner(Append("|\n"))), p, rows[1..], sizes)
  }

  /** `add_table_header_underline`: every direct `thead` of the table gets one underline. */
  function UnderlineHeads(t: Tree, p: Parser, table: nat, sizes: seq<nat>): Tree
  {
    match Find(t.roots, table)
    case None => t
    case Some(e) => Each(t, p, Children(e.kids, "thead"), SetInner(HeadContent(sizes)))
  }

  /** One table: measure, pad cells and end rows, underline the head, end the table with "\n". */
  function TableStep(t: Tree, p: Parser, table: nat): Result<Tree>
  {
    match Find(t.roots, table)
    case None => Ok(t)
    case Some(e) =>
      match CalculateColumnSizes(e)
      case Raised(err) => Raised(err)
      case Ok(sizes) =>
        match RowsFrom(t, p, TableRows(e), sizes)
        case Raised(err) => Raised(err)
        case Ok(t1) => Ok(Apply(UnderlineHeads(t1, p, table, sizes), p, table, SetInner(Append("\n"))))
  }

  function TablesFrom(t: Tree, p: Parser, tables: seq<Elem>): Result<Tree>
    decreases |tables|
  {
    if tables == [] then Ok(t)
    else
      match TableStep(t, p, tables[0].id)
      case Raised(e) => Raised(e)
      case Ok(t') => TablesFrom(t', p, tables[1..])
  }

  /** The document after parsing the normalised, paragraph-padded markup and removing style and script. */
  function Cleaned(html: string, p: Parser): (t: Tree)
    ensures Search(t.roots, Tags({"style"})) == [] && Search(t.roots, Tags({"script"})) == []
  {
    var t0 := Load(p, PadParagraphs(NormalizeWhitespace(html)));
    var t1 := Each(t0, p, Search(t0.roots, Tags({"style"})), Remove);
    SearchRemoveClears(t0, p, Tags({"style"}));
    var t2 := Each(t1, p, Search(t1.roots, Tags({"script"})), Remove);
    SearchRemoveClears(t1, p, Tags({"script"}));
    RemoveKeepsCleared(t1, p, Search(t1.roots, Tags({"script"})), Tags({"style"}));
    t2
  }

  /** Everything `textify` does after the anchors are rewritten, up to `doc.text`. */
  function AfterAnchors(t: Tree, p: Parser): Result<Tree>
  {
    var t1 := ImagesPass(t, p);
    var t2 := SimpleReplacePass(t1, p, Presentational, "\n");
    var t3 := HeadersPass(t2, p);
    var t4 := ListsPass(t3, p);
    match TablesFrom(t4, p, Search(t4.roots, Tags({"table"})))
    case Raised(e) => Raised(e)
    case Ok(t5) =>
      var t6 := SimpleReplacePass(t5, p, Tags({"hr"}), "\n----------\n");
      Ok(SimpleReplacePass(t6, p, Tags({"br"}), "\n"))
  }

  /** `Writer.new(link_base: linkBase).textify(html)`: the text, with space runs trimmed off every line. */
  function TextifyResult(html: string, linkBase: string, p: Parser, uri: string -> UriKind): (r: Result<string>)
    ensures r.Ok? ==> LinesTrimmed(r.value)
  {
    var t := Cleaned(html, p);
    match AnchorsFrom(t, p, uri, linkBase, Search(t.roots, Tags({"a"})))
    case Raised(e) => Raised(e)
    case Ok(t1) =>
      match AfterAnchors(t1, p)
      case Raised(e) => Raised(e)
      case Ok(t2) =>
        TrimLinesTrimmed(TextContent(t2.roots));
        Ok(TrimLines(TextContent(t2.roots)))
  }

  // ---------------------------------------------------------------------------
  // What the passes promise
  // ---------------------------------------------------------------------------

  /** One anchor that resolves: its content is rewritten and the pass goes on with the rest. */
  lemma AnchorsFromStep(t: Tree, p: Parser, uri: string -> UriKind, linkBase: string, links: seq<Elem>)
    requires links != []
    requires ResolveHref(Attribute(links[0].attrs, "href"), uri, LinkBase(t.roots, linkBase)).Ok?
    ensures var href := ResolveHref(Attribute(links[0].attrs, "href"), uri, LinkBase(t.roots, linkBase)).value;
      AnchorsFrom(t, p, uri, linkBase, links)
      == AnchorsFrom(Apply(t, p, links[0].id, SetInner(AnchorContent(href))), p, uri, linkBase, links[1..])
  {
  }

  /** An anchor without href makes the anchor pass raise, whatever the anchors before it do. */
  lemma {:induction false} AnchorWithoutHrefRaises(t: Tree, p: Parser, uri: string -> UriKind, linkBase: string, links: seq<Elem>, k: nat)
    requires k < |links| && Attribute(links[k].attrs, "href").None?
    ensures AnchorsFrom(t, p, uri, linkBase, links).Raised?
    decreases k
  {
    if k > 0 {
      var href := ResolveHref(Attribute(links[0].attrs, "href"), uri, LinkBase(t.roots, linkBase));
      if href.Ok? {
        var rest := links[1..];
        assert rest[k - 1] == links[k];
        AnchorsFromStep(t, p, uri, linkBase, links);
        AnchorWithoutHrefRaises(Apply(t, p, links[0].id, SetInner(AnchorContent(href.value))), p, uri, linkBase, rest, k - 1);
      }
    }
  }

  /** The href is present and URI() does not read it as relative, so resolving it needs no base. */
  predicate NeedsNoBase(link: Elem, uri: string -> UriKind)
  {
    Attribute(link.attrs, "href").Some? && uri(Attribute(link.attrs, "href").value) != RelativeUri
  }

  /** When the anchors before it need no base, an anchor without href raises ArgumentError. */
  lemma {:induction false} AnchorWithoutHrefArgumentError(t: Tree, p: Parser, uri: string -> UriKind, linkBase: string, links: seq<Elem>, k: nat)
    requires k < |links| && Attribute(links[k].attrs, "href").None?
    requires forall j :: 0 <= j < k ==> NeedsNoBase(links[j], uri)
    ensures AnchorsFrom(t, p, uri, linkBase, links) == Raised(ArgumentError)
    decreases k
  {
    if k > 0 {
      assert NeedsNoBase(links[0], uri);
      var href := ResolveHref(Attribute(links[0].attrs, "href"), uri, LinkBase(t.roots, linkBase));
      assert href.Ok?;
      var rest := links[1..];
      assert rest[k - 1] == links[k];
      assert forall j :: 0 <= j < k - 1 ==> NeedsNoBase(rest[j], uri) by {
        forall j | 0 <= j < k - 1 ensures NeedsNoBase(rest[j], uri) {
          assert rest[j] == links[j + 1];
        }
      }
      AnchorsFromStep(t, p, uri, linkBase, links);
      AnchorWithoutHrefArgumentError(Apply(t, p, links[0].id, SetInner(AnchorContent(href.value))), p, uri, linkBase, rest, k - 1);
    }
  }

  lemma TextifyRaisesForAnchorWithoutHref(html: string, linkBase: string, p: Parser, uri: string -> UriKind, k: nat)
    requires k < |Search(Cleaned(html, p).roots, Tags({"a"}))|
    requires Attribute(Search(Cleaned(html, p).roots, Tags({"a"}))[k].attrs, "href").None?
    ensures TextifyResult(html, linkBase, p, uri).Raised?
  {
    var t := Cleaned(html, p);
    AnchorWithoutHrefRaises(t, p, uri, linkBase, Search(t.roots, Tags({"a"})), k);
  }

  /** With all hrefs present and absolute or invalid, the anchor pass does not raise. */
  lemma {:induction false} AnchorsWithoutBaseNeeded(t: Tree, p: Parser, uri: string -> UriKind, linkBase: string, links: seq<Elem>)
    requires forall j :: 0 <= j < |links| ==> NeedsNoBase(links[j], uri)
    ensures AnchorsFrom(t, p, uri, linkBase, links).Ok?
    decreases |links|
  {
    if links != [] {
      assert NeedsNoBase(links[0], uri);
      var href := ResolveHref(Attribute(links[0].attrs, "href"), uri, LinkBase(t.roots, linkBase));
      assert href.Ok?;
      assert forall j :: 0 <= j < |links[1..]| ==> links[1..][j] == links[j + 1];
      AnchorsFromStep(t, p, uri, linkBase, links);
      AnchorsWithoutBaseNeeded(Apply(t, p, links[0].id, SetInner(AnchorContent(href.value))), p, uri, linkBase, links[1..]);
    }
  }

  /** An image without alt text (nil or empty) is left in the document as it is. */
  lemma {:induction false} ImagesWithoutAltKept(t: Tree, p: Parser, images: seq<Elem>)
    requires forall j :: 0 <= j < |images| ==> !HasAlt(images[j])
    ensures ImagesFrom(t, p, images) == t
    decreases |images|
  {
    if images != [] {
      assert forall j :: 0 <= j < |images[1..]| ==> images[1..][j] == images[j + 1];
      ImagesWithoutAltKept(t, p, images[1..]);
    }
  }

  /** The identities of the images with alt text: the ones `replace_images` replaces. */
  function AltIds(images: seq<Elem>): (r: set<nat>)
    ensures forall m :: m in images && HasAlt(m) ==> m.id in r
  {
    if images == [] then {} else (if HasAlt(images[0]) then {images[0].id} else {}) + AltIds(images[1..])
  }

  lemma {:induction false} ImagesKeepOutside(t: Tree, p: Parser, images: seq<Elem>, x: nat, tag: string, gone: set<nat>)
    requires AltIds(images) <= gone && Outside(t.roots, x, tag, gone)
    ensures Outside(ImagesFrom(t, p, images).roots, x, tag, gone)
    decreases |images|
  {
    if images != [] {
      if HasAlt(images[0]) {
        DetachKeepsOutside(t, p, images[0].id, Replace(ImageMarkup), x, tag, gone);
        ImagesKeepOutside(Apply(t, p, images[0].id, Replace(ImageMarkup)), p, images[1..], x, tag, gone);
      } else {
        ImagesKeepOutside(t, p, images[1..], x, tag, gone);
      }
    }
  }

  /**
   * `replace_images` skips an image without alt text (nil or empty) whatever the other images are:
   * one that lies inside no image with alt text is still in the document and still found by
   * `search('img')`.
   */
  lemma ImageWithoutAltKept(t: Tree, p: Parser, images: seq<Elem>, m: Elem)
    requires m in images && !HasAlt(m) && Outside(t.roots, m.id, "img", AltIds(images))
    ensures Find(ImagesFrom(t, p, images).roots, m.id).Some?
    ensures m.id in Ids(Search(ImagesFrom(t, p, images).roots, Tags({"img"})))
  {
    ImagesKeepOutside(t, p, images, m.id, "img", AltIds(images));
    OutsideFound(ImagesFrom(t, p, images).roots, m.id, "img", AltIds(images));
  }

  /** Every image with alt text is replaced: none of those node objects is left in the document. */
  lemma {:induction false} ImagesWithAltReplaced(t: Tree, p: Parser, images: seq<Elem>)
    requires Fresh(t) && forall m :: m in images ==> m.id < t.next
    ensures forall m :: m in images && HasAlt(m) ==> Find(ImagesFrom(t, p, images).roots, m.id).None?
    decreases |images|
  {
    if images != [] {
      var t' := if HasAlt(images[0]) then Apply(t, p, images[0].id, Replace(ImageMarkup)) else t;
      if HasAlt(images[0]) {
        Detaches(t, p, images[0].id, Replace(ImageMarkup));
        ApplyFresh(t, p, images[0].id, Replace(ImageMarkup));
        FindIds(t'.roots, images[0].id);
        ImagesKeepAbsent(t', p, images[1..], images[0].id);
        FindIds(ImagesFrom(t', p, images[1..]).roots, images[0].id);
      }
      assert forall m :: m in images[1..] ==> m in images;
      ImagesWithAltReplaced(t', p, images[1..]);
    }
  }

  lemma {:induction false} ImagesKeepAbsent(t: Tree, p: Parser, images: seq<Elem>, x: nat)
    requires x < t.next && x !in AllIds(t.roots)
    ensures x !in AllIds(ImagesFrom(t, p, images).roots)
    decreases |images|
  {
    if images != [] {
      if HasAlt(images[0]) {
        ApplyKeepsAbsent(t, p, images[0].id, Replace(ImageMarkup), x);
        ImagesKeepAbsent(Apply(t, p, images[0].id, Replace(ImageMarkup)), p, images[1..], x);
      } else {
        ImagesKeepAbsent(t, p, images[1..], x);
      }
    }
  }

  /** `simple_replace`: every node the search found is replaced, so none of those node objects is left. */
  lemma SimpleReplaceDetaches(t: Tree, p: Parser, sel: Selector, replacement: string)
    requires Fresh(t)
    ensures forall m :: m in Search(t.roots, sel) ==> Find(SimpleReplacePass(t, p, sel, replacement).roots, m.id).None?
  {
    SearchEachDetaches(t, p, sel, Replace(Append(replacement)));
  }

  /**
   * A cell of a measured row fits its column: the width of column i is at least the cell's
   * content length, so the padded cell is exactly the column width plus two.
   */
  lemma MeasuredCellFits(table: Elem, r: nat, i: nat)
    requires r < |Search(table.kids, Tags({"tr"}))|
    requires i < |RowCells(Search(table.kids, Tags({"tr"}))[r])|
    requires CalculateColumnSizes(table).Ok?
    ensures var sizes := CalculateColumnSizes(table).value;
      var cell := RowCells(Search(table.kids, Tags({"tr"}))[r])[i];
      i < |sizes| && |InnerHtml(cell)| <= sizes[i] && |CellMarkup(InnerHtml(cell), sizes[i])| == sizes[i] + 2
  {
    var rows := Measure(table);
    var sizes := CalculateColumnSizes(table).value;
    assert |rows[r]| == |rows[0]|;
    assert rows[r][i] <= sizes[i];
  }

  /** Ragged rows in a table still in the document make the table step raise IndexError. */
  lemma RaggedTableRaises(t: Tree, p: Parser, table: nat)
    requires Find(t.roots, table).Some? && !Rectangular(Measure(Find(t.roots, table).value))
    ensures TableStep(t, p, table) == Raised(IndexError)
  {
  }

  // ---------------------------------------------------------------------------
  // The writer
  // ---------------------------------------------------------------------------

  class Writer {
    /** The url relative links are put after when the document has no `<base>`. */
    const linkBase: string

    constructor (linkBase: string := "")
      ensures this.linkBase == linkBase
    {
      this.linkBase := linkBase;
    }

    /** `textify(html)`. Parsing is `parser`; `uri` is how Ruby's URI() classifies an href. */
    method Textify(html: string, parser: Parser, uri: string -> UriKind) returns (r: Result<string>)
      ensures r == TextifyResult(html, linkBase, parser, uri)
      ensures r.Ok? ==> LinesTrimmed(r.value)
    {
      var doc := new Document(parser, PadParagraphs(NormalizeWhitespace(html)));
      doc.SearchRemove(Tags({"style"}));
      doc.SearchRemove(Tags({"script"}));
      assert doc.State() == Cleaned(html, parser);

      var anchors := ReplaceAnchors(doc, uri);
      if anchors.Raised? {
        return Raised(anchors.error);
      }
      ghost var t1 := doc.State();
      ReplaceImages(doc);
      SimpleReplace(doc, Presentational, "\n");
      ReplaceHeaders(doc);
      ReplaceLists(doc);
      var tables := ReplaceTables(doc);
      if tables.Raised? {
        return Raised(tables.error);
      }
      SimpleReplace(doc, Tags({"hr"}), "\n----------\n");
      SimpleReplace(doc, Tags({"br"}), "\n");
      assert AfterAnchors(t1, parser) == Ok(doc.State());

      var text := doc.Text();
      r := Ok(TrimLines(text));
    }

    method ReplaceAnchors(doc: Document, uri: string -> UriKind) returns (r: Result<()>)
      requires doc.Valid()
      modifies doc
      ensures doc.Valid()
      ensures Outcome(r, doc.State()) == AnchorsFrom(old(doc.State()), doc.parser, uri, linkBase, Search(old(doc.roots), Tags({"a"})))
    {
      var links := doc.Search(Tags({"a"}));
      var i := 0;
      while i < |links|
        invariant 0 <= i <= |links| && doc.Valid()
        invariant AnchorsFrom(doc.State(), doc.parser, uri, linkBase, links[i..])
               == AnchorsFrom(old(doc.State()), doc.parser, uri, linkBase, links)
      {
        var href := ResolveHref(Attribute(links[i].attrs, "href"), uri, LinkBase(doc.roots, linkBase));
        if href.Raised? {
          return Raised(href.error);
        }
        assert links[i..][1..] == links[i + 1..];
        doc.Apply(links[i].id, SetInner(AnchorContent(href.value)));
        i := i + 1;
      }
      return Ok(());
    }

    method ReplaceImages(doc: Document)
      requires doc.Valid()
      modifies doc
      ensures doc.Valid() && doc.State() == ImagesPass(old(doc.State()), doc.parser)
    {
      doc.SearchRemove(PresentationalImage);
      var images := doc.Search(Tags({"img"}));
      ReplaceAltImages(doc, images);
    }

    /** The `doc.search('img').each` loop of `replace_images`. */
    method ReplaceAltImages(doc: Document, images: seq<Elem>)
      requires doc.Valid()
      modifies doc
      ensures doc.Valid() && doc.State() == ImagesFrom(old(doc.State()), doc.parser, images)
    {
      var i := 0;
      while i < |images|
        invariant 0 <= i <= |images| && doc.Valid()
        invariant ImagesFrom(doc.State(), doc.parser, images[i..]) == ImagesFrom(old(doc.State()), doc.parser, images)
      {
        assert images[i..][1..] == images[i + 1..];
        if HasAlt(images[i]) {
          doc.Apply(images[i].id, Replace(ImageMarkup));
        }
        i := i + 1;
      }
    }

    method ReplaceHeaders(doc: Document)
      requires doc.Valid()
      modifies doc
      ensures doc.Valid() && doc.State() == HeadersPass(old(doc.State()), doc.parser)
    {
      doc.SearchEach(Headings, SetInner(HeaderMarkup));
    }

    method ReplaceLists(doc: Document)
      requires doc.Valid()
      modifies doc
      ensures doc.Valid() && doc.State() == ListsPass(old(doc.State()), doc.parser)
    {
      doc.SearchEach(Descendant("ul", "li"), SetInner(BulletMarkup));
      var lists := doc.Search(Tags({"ol"}));
      NumberAll(doc, lists);
      doc.SearchEach(Tags({"ol", "ul"}), Replace(ListMarkup));
    }

    /** The `doc.search('ol').each` loop of `replace_lists`. */
    method NumberAll(doc: Document, lists: seq<Elem>)
      requires doc.Valid()
      modifies doc
      ensures doc.Valid() && doc.State() == NumberLists(old(doc.State()), doc.parser, lists)
    {
      var i := 0;
      while i < |lists|
        invariant 0 <= i <= |lists| && doc.Valid()
        invariant NumberLists(doc.State(), doc.parser, lists[i..]) == NumberLists(old(doc.State()), doc.parser, lists)
      {
        assert lists[i..][1..] == lists[i + 1..];
        var found := Find(doc.roots, lists[i].id);
        if found.Some? {
          NumberList(doc, Children(found.value.kids, "li"));
        }
        i := i + 1;
      }
    }

    /** `node.css('li').each_with_index` for one ordered list. */
    method NumberList(doc: Document, items: seq<Elem>)
      requires doc.Valid()
      modifies doc
      ensures doc.Valid() && doc.State() == NumberItems(old(doc.State()), doc.parser, items, 1)
    {
      var j := 0;
      while j < |items|
        invariant 0 <= j <= |items| && doc.Valid()
        invariant NumberItems(doc.State(), doc.parser, items[j..], j + 1) == NumberItems(old(doc.State()), doc.parser, items, 1)
      {
        assert items[j..][1..] == items[j + 1..];
        doc.Apply(items[j].id, SetInner(NumberedMarkup(j + 1)));
        j := j + 1;
      }
    }

    method ReplaceTables(doc: Document) returns (r: Result<()>)
      requires doc.Valid()
      modifies doc
      ensures doc.Valid()
      ensures Outcome(r, doc.State()) == TablesFrom(old(doc.State()), doc.parser, Search(old(doc.roots), Tags({"table"})))
    {
      var tables := doc.Search(Tags({"table"}));
      var i := 0;
      while i < |tables|
        invariant 0 <= i <= |tables| && doc.Valid()
        invariant TablesFrom(doc.State(), doc.parser, tables[i..]) == TablesFrom(old(doc.State()), doc.parser, tables)
      {
        assert tables[i..][1..] == tables[i + 1..];
        var step := ReplaceTable(doc, tables[i].id);
        if step.Raised? {
          return Raised(step.error);
        }
        i := i + 1;
      }
      return Ok(());
    }

    /** The body of the `doc.css('table').each` loop. */
    method ReplaceTable(doc: Document, table: nat) returns (r: Result<()>)
      requires doc.Valid()
      modifies doc
      ensures doc.Valid()
      ensures Outcome(r, doc.State()) == TableStep(old(doc.State()), doc.parser, table)
    {
      var found := Find(doc.roots, table);
      if found.None? {
        return Ok(());
      }
      var sizes := CalculateColumnSizes(found.value);
      if sizes.Raised? {
        return Raised(sizes.error);
      }
      var rows := ReplaceRows(doc, TableRows(found.value), sizes.value);
      if rows.Raised? {
        return Raised(rows.error);
      }
      AddTableHeaderUnderline(doc, table, sizes.value);
      doc.Apply(table, SetInner(Append("\n")));
      return Ok(());
    }

    /** The row loop of `replace_tables`. */
    method ReplaceRows(doc: Document, rows: seq<Elem>, sizes: seq<nat>) returns (r: Result<()>)
      requires doc.Valid()
      modifies doc
      ensures doc.Valid()
      ensures Outcome(r, doc.State()) == RowsFrom(old(doc.State()), doc.parser, rows, sizes)
    {
      var i := 0;
      while i < |rows|
        invariant 0 <= i <= |rows| && doc.Valid()
        invariant RowsFrom(doc.State(), doc.parser, rows[i..], sizes) == RowsFrom(old(doc.State()), doc.parser, rows, sizes)
      {
        assert rows[i..][1..] == rows[i + 1..];
        var row := Find(doc.roots, rows[i].id);
        if row.Some? {
          var cells := ReplaceTableNodes(doc, row.value, sizes);
          if cells.Raised? {
            return Raised(cells.error);
          }
          doc.Apply(rows[i].id, SetInner(Append("|\n")));
        }
        i := i + 1;
      }
      return Ok(());
    }

    method ReplaceTableNodes(doc: Document, row: Elem, sizes: seq<nat>) returns (r: Result<()>)
      requires doc.Valid()
      modifies doc
      ensures doc.Valid()
      ensures Outcome(r, doc.State()) == CellsFrom(old(doc.State()), doc.parser, RowCells(row), sizes, 0)
    {
      var cells := RowCells(row);
      var i := 0;
      while i < |cells|
        invariant 0 <= i <= |cells| && doc.Valid()
        invariant CellsFrom(doc.State(), doc.parser, cells[i..], sizes, i) == CellsFrom(old(doc.State()), doc.parser, cells, sizes, 0)
      {
        assert cells[i..][1..] == cells[i + 1..];
        if i >= |sizes| {
          return Raised(NoMethodError);
        }
        doc.Apply(cells[i].id, SetInner(CellContent(sizes[i])));
        i := i + 1;
      }
      return Ok(());
    }

    method AddTableHeaderUnderline(doc: Document, table: nat, sizes: seq<nat>)
      requires doc.Valid()
      modifies doc
      ensures doc.Valid() && doc.State() == UnderlineHeads(old(doc.State()), doc.parser, table, sizes)
    {
      var found := Find(doc.roots, table);
      if found.Some? {
        doc.Each(Children(found.value.kids, "thead"), SetInner(HeadContent(sizes)));
      }
    }

    method SimpleReplace(doc: Document, sel: Selector, replacement: string)
      requires doc.Valid()
      modifies doc
      ensures doc.Valid() && doc.State() == SimpleReplacePass(old(doc.State()), doc.parser, sel, replacement)
    {
      doc.SearchEach(sel, Replace(Append(replacement)));
    }
  }
}
