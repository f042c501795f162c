/**
 * Dirt::Textify.textify (lib/dirt/textify.rb): the module function of the first generation. It
 * rewrites the caller's string in place (`gsub!`), parses it, removes style nodes, rewrites anchors,
 * rules and line breaks, and returns the document's text untrimmed.
 */
module DirtTextify {
  import opened Results
  import opened RubyStrings
  import opened Dom
  import opened Documents
  import opened GhostwriterLinks

  /** `html.gsub!(/\s+/, ' ')` then `html.gsub!('</p>', "</p>\n\n")`. */
  function Rewritten(html: string): (r: string)
    ensures UnpadParagraphs(r) == CollapseRegexSpaceRuns(html)
  {
    UnpadPadParagraphs(CollapseRegexSpaceRuns(html));
    PadParagraphs(CollapseRegexSpaceRuns(html))
  }

  /** The first generation leaves the caller's string as the writer parses it: both collapse \s runs the same. */
  lemma RewrittenIsWriterMarkup(html: string)
    ensures Rewritten(html) == PadParagraphs(NormalizeWhitespace(html))
  {
    NormalizeWhitespaceIsCollapse(html);
  }

  /**
   * The anchor loop: `link_node.inner_html + ' (' + link_node['href'] + ")\n"`; String#+ with a nil
   * href raises TypeError. The href is read from the node object the search returned, so an
   * anchor an earlier edit took out of the document still raises.
   */
  function LinksFrom(t: Tree, p: Parser, links: seq<Elem>): Result<Tree>
    decreases |links|
  {
    if links == [] then Ok(t)
    else
      match Attribute(links[0].attrs, "href")
      case None => Raised(TypeError)
      case Some(href) => LinksFrom(Apply(t, p, links[0].id, SetInner(Append(" (" + href + ")\n"))), p, links[1..])
  }

  predicate MissingHref(links: seq<Elem>)
  {
    exists k :: 0 <= k < |links| && Attribute(links[k].attrs, "href").None?
  }

  /** The anchor loop raises exactly when some anchor has no href, and then always TypeError. */
  lemma {:induction false} LinksFromRaises(t: Tree, p: Parser, links: seq<Elem>)
    ensures LinksFrom(t, p, links).Raised? <==> MissingHref(links)
    ensures LinksFrom(t, p, links).Raised? ==> LinksFrom(t, p, links).error == TypeError
    decreases |links|
  {
    if links != [] {
      match Attribute(links[0].attrs, "href")
      case None =>
        assert Attribute(links[0].attrs, "href").None?;
      case Some(href) =>
        var t' := Apply(t, p, links[0].id, SetInner(Append(" (" + href + ")\n")));
        LinksFromRaises(t', p, links[1..]);
        if MissingHref(links) {
          var k :| 0 <= k < |links| && Attribute(links[k].attrs, "href").None?;
          assert k > 0 && links[1..][k - 1] == links[k];
        }
        if MissingHref(links[1..]) {
          var k :| 0 <= k < |links[1..]| && Attribute(links[1..][k].attrs, "href").None?;
          assert links[k + 1] == links[1..][k];
        }
    }
  }

  /** The document after the style removal. */
  function Destyled(html: string, p: Parser): (t: Tree)
    ensures Search(t.roots, Tags({"style"})) == []
  {
    var t0 := Load(p, Rewritten(html));
    SearchRemoveClears(t0, p, Tags({"style"}));
    Each(t0, p, Search(t0.roots, Tags({"style"})), Remove)
  }

  /**
   * Only style elements are removed: a script that lies below no style element of the parsed
   * document is still found by `search('script')` afterwards.
   */
  lemma DestyledKeepsScripts(html: string, p: Parser, x: nat)
    requires var t0 := Load(p, Rewritten(html));
      Outside(t0.roots, x, "script", Ids(Search(t0.roots, Tags({"style"}))))
    ensures x in Ids(Search(Destyled(html, p).roots, Tags({"script"})))
  {
    var t0 := Load(p, Rewritten(html));
    var styles := Search(t0.roots, Tags({"style"}));
    RemoveKeepsOutside(t0, p, styles, x, "script", Ids(styles));
    OutsideSelected(Destyled(html, p).roots, x, "script", Ids(styles), false);
  }

  /** The document `textify` reads its text from, or the error the anchor loop raised. */
  function TextifiedTree(html: string, p: Parser): Result<Tree>
  {
    var t1 := Destyled(html, p);
    match LinksFrom(t1, p, Search(t1.roots, Tags({"a"})))
    case Raised(e) => Raised(e)
    case Ok(t2) =>
      var t3 := Each(t2, p, Search(t2.roots, Tags({"hr"})), Replace(Constant("----------")));
      Ok(Each(t3, p, Search(t3.roots, Tags({"br"})), Replace(Constant("\n"))))
  }

  /** The value `textify` returns: `doc.text`, untrimmed. */
  function Textified(html: string, p: Parser): (r: Result<string>)
    ensures r.Ok? <==> TextifiedTree(html, p).Ok?
    ensures r.Ok? ==> r.value == TextContent(TextifiedTree(html, p).value.roots)
  {
    match TextifiedTree(html, p)
    case Raised(e) => Raised(e)
    case Ok(t) => Ok(TextContent(t.roots))
  }

  /** `textify` raises TypeError exactly when an anchor that survived the style removal has no href. */
  lemma TextifyRaisesOnMissingHref(html: string, p: Parser)
    ensures Textified(html, p).Raised? <==> MissingHref(Search(Destyled(html, p).roots, Tags({"a"})))
    ensures Textified(html, p).Raised? ==> Textified(html, p).error == TypeError
  {
    var t1 := Destyled(html, p);
    LinksFromRaises(t1, p, Search(t1.roots, Tags({"a"})));
  }

  /** `Dirt::Textify.textify(html)`: the caller's string is rewritten whether or not an anchor raises. */
  method Textify(html: MutableString, parser: Parser) returns (r: Result<string>)
    modifies html
    ensures html.value == Rewritten(old(html.value))
    ensures r == Textified(old(html.value), parser)
  {
    ghost var source := html.value;
    html.value := CollapseRegexSpaceRuns(html.value);
    html.value := PadParagraphs(html.value);

    var doc := new Document(parser, html.value);
    doc.SearchRemove(Tags({"style"}));
    assert doc.State() == Destyled(source, parser);

    var links := doc.Search(Tags({"a"}));
    ghost var t1 := doc.State();
    var i := 0;
    while i < |links|
      invariant 0 <= i <= |links| && doc.Valid()
      invariant LinksFrom(doc.State(), parser, links[i..]) == LinksFrom(t1, parser, links)
      invariant html.value == Rewritten(source)
    {
      assert links[i..][1..] == links[i + 1..];
      var href := Attribute(links[i].attrs, "href");
      if href.None? {
        return Raised(TypeError);
      }
      doc.Apply(links[i].id, SetInner(Append(" (" + href.value + ")\n")));
      i := i + 1;
    }

    doc.SearchEach(Tags({"hr"}), Replace(Constant("----------")));
    doc.SearchEach(Tags({"br"}), Replace(Constant("\n")));
    var text := doc.Text();
    r := Ok(text);
  }
}
