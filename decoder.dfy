/**
 * Dirt::Textify::Decoder (lib/dirt/textify/decoder.rb): the converter object of the second
 * generation. It keeps the caller's String object and, on `textify`, works on a copy of its current
 * value: newlines
 * and tabs become spaces, space runs are squeezed, paragraphs are padded, and the parsed document
 * is rewritten by removals and per-node edits before its text is trimmed line by line.
 */
module DirtDecoder {
  import opened Results
  import opened RubyStrings
  import opened Dom
  import opened Documents
  import opened GhostwriterLinks

  /**
   * `html.gsub!(/\n|\t/, ' ')` then `html.squeeze!(' ')`: no newline, tab or double space is left,
   * and only spaces, newlines and tabs are lost.
   */
  function Flattened(html: string): (r: string)
    ensures '\n' !in r && '\t' !in r && NoDoubleSpace(r)
    ensures RemoveChars(r, {' '}) == RemoveChars(html, {' ', '\n', '\t'})
  {
    var b := BlankNewlinesTabs(html);
    BlankNewlinesTabsFacts(html);
    SqueezeNoDoubleSpace(b);
    SqueezeKeepsNonSpaces(b);
    SqueezeChars(b);
    Squeeze(b)
  }

  lemma {:induction false} BlankNewlinesTabsIsBlank(s: string)
    requires '\r' !in s && '\U{0B}' !in s && '\U{0C}' !in s
    ensures BlankNewlinesTabs(s) == BlankRegexSpaces(s)
  {
    if s != [] {
      assert s[0] in s;
      assert forall c :: c in s[1..] ==> c in s;
      BlankNewlinesTabsIsBlank(s[1..]);
    }
  }

  /**
   * Only carriage returns, vertical tabs and form feeds separate the decoder's flattening from the
   * writer's `normalize_whitespace`: the decoder keeps them, the writer turns them into spaces.
   */
  lemma FlattenedIsNormalized(html: string)
    requires '\r' !in html && '\U{0B}' !in html && '\U{0C}' !in html
    ensures Flattened(html) == NormalizeWhitespace(html)
  {
    BlankNewlinesTabsIsBlank(html);
  }

  lemma FlattenedKeepsCarriageReturns(html: string)
    ensures '\r' in html <==> '\r' in Flattened(html)
  {
    var b := BlankNewlinesTabs(html);
    BlankNewlinesTabsFacts(html);
    SqueezeKeepsNonSpaces(b);
    RemoveCharsKeeps(html, {' ', '\n', '\t'}, '\r');
    RemoveCharsKeeps(Flattened(html), {' '}, '\r');
  }

  lemma {:induction false} RemoveCharsKeeps(s: string, cs: set<char>, c: char)
    requires c !in cs
    ensures c in s <==> c in RemoveChars(s, cs)
  {
    if s != [] {
      RemoveCharsKeeps(s[1..], cs, c);
      assert s == [s[0]] + s[1..];
    }
  }

  /** The markup the decoder parses. */
  function Prepared(html: string): (r: string)
    ensures UnpadParagraphs(r) == Flattened(html)
  {
    UnpadPadParagraphs(Flattened(html));
    PadParagraphs(Flattened(html))
  }

  /**
   * `"#{link_node.inner_html} (#{link_node['href']})"`: a missing href interpolates as "". The
   * link's content and its href read back from the result.
   */
  function LinkMarkup(e: Elem): (r: string)
    ensures var inner, href := InnerHtml(e), Interpolated(Attribute(e.attrs, "href"));
      |r| == |inner| + |href| + 3 &&
      r[..|inner|] == inner && r[|inner|..|inner| + 2] == " (" && r[|r| - 1] == ')' &&
      r[|inner| + 2..|r| - 1] == href
  {
    var inner, href := InnerHtml(e), Interpolated(Attribute(e.attrs, "href"));
    var r := inner + " (" + href + ")";
    assert r[..|inner|] == inner;
    assert r[|inner| + 2..|r| - 1] == href;
    r
  }

  /**
   * Against the writer's anchors: the decoder neither resolves nor matches. A nil href, on which
   * the writer raises, shows as empty brackets; an absolute href gives the writer's content exactly
   * when the writer would not have found it matching the link text.
   */
  lemma LinkMarkupAgainstWriter(e: Elem, uri: string -> UriKind, base: Option<string>)
    ensures Attribute(e.attrs, "href").None? ==>
              ResolveHref(None, uri, base) == Raised(ArgumentError) && LinkMarkup(e) == InnerHtml(e) + " ()"
    ensures Attribute(e.attrs, "href").Some? && uri(Attribute(e.attrs, "href").value) == AbsoluteUri ==>
              var h := Attribute(e.attrs, "href").value;
              ResolveHref(Some(h), uri, base) == Ok(h) &&
              (LinkMarkup(e) == AnchorMarkup(h, InnerHtml(e)) <==> !LinkMatches(h, InnerHtml(e)))
  {
    var href := Attribute(e.attrs, "href");
    if href.Some? {
      AnchorShowsHrefAlone(href.value, InnerHtml(e));
      assert |LinkMarkup(e)| > |href.value|;
    }
  }

  /** The parsed document without its style and script elements. */
  function Stripped(html: string, p: Parser): (t: Tree)
    ensures Search(t.roots, Tags({"style"})) == [] && Search(t.roots, Tags({"script"})) == []
  {
    var t0 := Load(p, Prepared(html));
    var t1 := Each(t0, p, Search(t0.roots, Tags({"style"})), Remove);
    SearchRemoveClears(t0, p, Tags({"style"}));
    SearchRemoveClears(t1, p, Tags({"script"}));
    RemoveKeepsCleared(t1, p, Search(t1.roots, Tags({"script"})), Tags({"style"}));
    Each(t1, p, Search(t1.roots, Tags({"script"})), Remove)
  }

  /** The document `textify` reads its text from. */
  function DecodedTree(html: string, p: Parser): Tree
  {
    var t2 := Stripped(html, p);
    var t3 := Each(t2, p, Search(t2.roots, Tags({"a"})), SetInner(LinkMarkup));
    var t4 := Each(t3, p, Search(t3.roots, Headings), SetInner(Append("\n")));
    var t5 := Each(t4, p, Search(t4.roots, Tags({"hr"})), Replace(Constant("\n----------\n")));
    Each(t5, p, Search(t5.roots, Tags({"br"})), Replace(Constant("\n")))
  }

  /** `textify`: the document's text with the space runs at the ends of every line removed. */
  function Decoded(html: string, p: Parser): (r: string)
    ensures LinesTrimmed(r)
    ensures Lines(r) == TrimAll(Lines(TextContent(DecodedTree(html, p).roots)))
  {
    var text := TextContent(DecodedTree(html, p).roots);
    TrimLinesTrimmed(text);
    TrimLinesLines(text);
    TrimLines(text)
  }

  /** The final trim is complete: trimming the output again changes nothing. */
  lemma DecodedTrimIsFinal(html: string, p: Parser)
    ensures TrimLines(Decoded(html, p)) == Decoded(html, p)
  {
    TrimLinesIdempotent(TextContent(DecodedTree(html, p).roots));
  }

  class Decoder {
    /** `@source_html`: the caller's String object itself, not a copy, so later changes to it are seen. */
    const source: MutableString

    constructor (html: MutableString)
      ensures source == html
    {
      source := html;
    }

    /**
     * `Decoder#textify`, with `Nokogiri::HTML` and the fragment parser given as `parser`: it decodes
     * the markup the shared string holds now, and changes neither that string nor anything else.
     */
    method Textify(parser: Parser) returns (text: string)
      ensures text == Decoded(source.value, parser)
      ensures LinesTrimmed(text)
    {
      var html := source.value;
      html := BlankNewlinesTabs(html);
      html := Squeeze(html);
      html := PadParagraphs(html);

      var doc := new Document(parser, html);
      doc.SearchRemove(Tags({"style"}));
      doc.SearchRemove(Tags({"script"}));
      assert doc.State() == Stripped(source.value, parser);
      doc.SearchEach(Tags({"a"}), SetInner(LinkMarkup));
      doc.SearchEach(Headings, SetInner(Append("\n")));
      doc.SearchEach(Tags({"hr"}), Replace(Constant("\n----------\n")));
      doc.SearchEach(Tags({"br"}), Replace(Constant("\n")));
      assert doc.State() == DecodedTree(source.value, parser);

      var raw := doc.Text();
      text := TrimLines(raw);
    }
  }
}
