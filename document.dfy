/** `Nokogiri::HTML::Document`: the document object the converters search and edit in place. */
module Documents {
  import opened Results
  import opened Dom

  class Document {
    /** The parser `Nokogiri::HTML`, `inner_html=` and `replace` use. */
    const parser: Parser
    var roots: seq<Node>
    /** The identity the next node object created gets. */
    var next: nat

    function State(): Tree
      reads this
    {
      Tree(roots, next)
    }

    /** Every node object in the document is one the document created before `next`. */
    ghost predicate Valid()
      reads this
    {
      Fresh(State())
    }

    /** `Nokogiri::HTML(markup)`. */
    constructor (parser: Parser, markup: string)
      ensures this.parser == parser && State() == Load(parser, markup) && Valid()
    {
      this.parser := parser;
      var t := Load(parser, markup);
      roots := t.roots;
      next := t.next;
    }

    /** `doc.search(css)`: the matching elements in document order. */
    method Search(sel: Selector) returns (ms: seq<Elem>)
      ensures ms == Dom.Search(roots, sel)
      ensures forall m :: m in ms ==> Selected(sel, m)
    {
      ms := Dom.Search(roots, sel);
    }

    /** `doc.text`. */
    method Text() returns (s: string)
      ensures s == TextContent(roots)
    {
      s := TextContent(roots);
    }

    /** One edit on the node object with this id; nothing happens if it has left the document. */
    method Apply(id: nat, edit: Edit)
      requires Valid()
      modifies this
      ensures Valid() && State() == Dom.Apply(old(State()), parser, id, edit)
    {
      ApplyFresh(State(), parser, id, edit);
      var t := Dom.Apply(State(), parser, id, edit);
      roots := t.roots;
      next := t.next;
    }

    /** `nodes.each { |node| edit }` over nodes an earlier search returned. */
    method Each(ms: seq<Elem>, edit: Edit)
      requires Valid()
      modifies this
      ensures Valid() && State() == Dom.Each(old(State()), parser, ms, edit)
    {
      var i := 0;
      while i < |ms|
        invariant 0 <= i <= |ms| && Valid()
        invariant Dom.Each(State(), parser, ms[i..], edit) == Dom.Each(old(State()), parser, ms, edit)
      {
        assert ms[i..][1..] == ms[i + 1..];
        Apply(ms[i].id, edit);
        i := i + 1;
      }
    }

    /** `doc.search(css).each { |node| edit }`. */
    method SearchEach(sel: Selector, edit: Edit)
      requires Valid()
      modifies this
      ensures Valid() && State() == Dom.Each(old(State()), parser, Dom.Search(old(roots), sel), edit)
    {
      var ms := Search(sel);
      Each(ms, edit);
    }

    /** `doc.search(css).remove`: afterwards the same search finds nothing. */
    method SearchRemove(sel: Selector)
      requires Valid()
      modifies this
      ensures Valid() && State() == Dom.Each(old(State()), parser, Dom.Search(old(roots), sel), Remove)
      ensures Dom.Search(roots, sel) == []
    {
      SearchRemoveClears(State(), parser, sel);
      SearchEach(sel, Remove);
    }
  }
}
