/**
 * The parsed HTML tree the converters work on: element and text nodes, Nokogiri's serialisation
 * (`inner_html`) and text content (`text`), the CSS and XPath searches the converters issue, and the
 * three edits they make to the tree (`remove`, `inner_html=` and `replace`).
 *
 * Parsing itself is not modelled: a `Parser` is a parameter. Every element carries an `id`, which
 * stands for the identity of the Ruby node object. Nodes that a re-parse creates get fresh ids, so a
 * node object that has left the document is never found in it again.
 */
module Dom {
  import opened Results

  datatype Attr = Attr(name: string, value: string)

  /** An element node; `id` is its object identity. */
  datatype Elem = Elem(id: nat, tag: string, attrs: seq<Attr>, kids: seq<Node>)

  datatype Node = Element(elem: Elem) | Text(text: string)

  /** `node['name']`: the value of the first attribute with that name, or nil. */
  function Attribute(attrs: seq<Attr>, name: string): (r: Option<string>)
    ensures r.Some? ==> Attr(name, r.value) in attrs
    ensures r.None? ==> forall a :: a in attrs ==> a.name != name
  {
    if attrs == [] then None
    else if attrs[0].name == name then Some(attrs[0].value)
    else Attribute(attrs[1..], name)
  }

  /** With several attributes of one name, `node['name']` is the value of the first of them. */
  lemma {:induction false} AttributeIsFirst(attrs: seq<Attr>, name: string)
    ensures var r := Attribute(attrs, name);
      r.Some? ==> exists i :: 0 <= i < |attrs| && attrs[i] == Attr(name, r.value) &&
                              forall j :: 0 <= j < i ==> attrs[j].name != name
  {
    if attrs != [] && attrs[0].name != name {
      AttributeIsFirst(attrs[1..], name);
      var r := Attribute(attrs, name);
      if r.Some? {
        var i :| 0 <= i < |attrs[1..]| && attrs[1..][i] == Attr(name, r.value) &&
                 forall j :: 0 <= j < i ==> attrs[1..][j].name != name;
        assert attrs[i + 1] == Attr(name, r.value);
        assert forall j :: 0 <= j < i + 1 ==> attrs[j].name != name by {
          forall j | 0 <= j < i + 1 ensures attrs[j].name != name {
            if j > 0 {
              assert attrs[j] == attrs[1..][j - 1];
            }
          }
        }
      }
    }
  }

  // ---------------------------------------------------------------------------
  // Text content and serialisation
  // ---------------------------------------------------------------------------

  /** `Node#text`: the text nodes below a node, concatenated in document order. */
  function NodeTextContent(n: Node): string
  {
    match n
    case Text(s) => s
    case Element(e) => TextContent(e.kids)
  }

  function TextContent(ns: seq<Node>): string
  {
    if ns == [] then [] else NodeTextContent(ns[0]) + TextContent(ns[1..])
  }

  /** Elements HTML serialises without a closing tag. */
  const VoidTags: set<string> :=
    {"area", "base", "br", "col", "embed", "hr", "img", "input", "link", "meta", "param", "source", "track", "wbr"}

  function AttrsMarkup(attrs: seq<Attr>): string
  {
    if attrs == [] then []
    else " " + attrs[0].name + "=\"" + attrs[0].value + "\"" + AttrsMarkup(attrs[1..])
  }

  /** `Node#to_html`, without entity escaping. */
  function NodeMarkup(n: Node): string
  {
    match n
    case Text(s) => s
    case Element(e) =>
      "<" + e.tag + AttrsMarkup(e.attrs) + ">" + Markup(e.kids)
      + (if e.tag in VoidTags then "" else "</" + e.tag + ">")
  }

  function Markup(ns: seq<Node>): string
  {
    if ns == [] then [] else NodeMarkup(ns[0]) + Markup(ns[1..])
  }

  /** `Node#inner_html`: the markup of the children. */
  function InnerHtml(e: Elem): string
  {
    Markup(e.kids)
  }

  // ---------------------------------------------------------------------------
  // Searches
  // ---------------------------------------------------------------------------

  /** The CSS selectors the converters use. */
  datatype Selector =
    | Tags(names: set<string>)                                          // 'a', 'header, h1, ...', 'ol, ul'
    | WithAttribute(only: Option<string>, name: string, value: string) // '*[role="presentation"]'
    | Descendant(ancestor: string, tag: string)                         // 'ul li'

  /** What a selected element satisfies by itself, independent of where it sits. */
  predicate Selected(sel: Selector, e: Elem)
  {
    match sel
    case Tags(names) => e.tag in names
    case WithAttribute(only, name, value) =>
      (only.None? || e.tag == only.value) && Attribute(e.attrs, name) == Some(value)
    case Descendant(_, tag) => e.tag == tag
  }

  /** `inside` says whether an ancestor of `e` is the ancestor a descendant selector asks for. */
  predicate Matches(sel: Selector, e: Elem, inside: bool)
  {
    Selected(sel, e) && (sel.Descendant? ==> inside)
  }

  /** Whether the children of `e` are inside the ancestor a descendant selector asks for. */
  predicate Enters(sel: Selector, e: Elem, inside: bool)
  {
    inside || (sel.Descendant? && e.tag == sel.ancestor)
  }

  /** The elements of a subtree a selector matches, in document order (an element before its descendants). */
  function SelectNode(n: Node, sel: Selector, inside: bool): (r: seq<Elem>)
    ensures forall m :: m in r ==> Selected(sel, m)
  {
    match n
    case Text(_) => []
    case Element(e) =>
      (if Matches(sel, e, inside) then [e] else []) + SelectAll(e.kids, sel, Enters(sel, e, inside))
  }

  function SelectAll(ns: seq<Node>, sel: Selector, inside: bool): (r: seq<Elem>)
    ensures forall m :: m in r ==> Selected(sel, m)
  {
    if ns == [] then [] else SelectNode(ns[0], sel, inside) + SelectAll(ns[1..], sel, inside)
  }

  /** `search(css)` below a list of nodes. */
  function Search(ns: seq<Node>, sel: Selector): seq<Elem>
  {
    SelectAll(ns, sel, false)
  }

  lemma {:induction false} SelectAllConcat(a: seq<Node>, b: seq<Node>, sel: Selector, inside: bool)
    ensures SelectAll(a + b, sel, inside) == SelectAll(a, sel, inside) + SelectAll(b, sel, inside)
    decreases |a|
  {
    if a == [] {
      assert a + b == b;
    } else {
      assert (a + b)[1..] == a[1..] + b;
      SelectAllConcat(a[1..], b, sel, inside);
    }
  }

  /** XPath './tag': the element children with that tag, in order. */
  function Children(ns: seq<Node>, tag: string): (r: seq<Elem>)
    ensures forall m :: m in r ==> m.tag == tag && Element(m) in ns
  {
    if ns == [] then []
    else (if ns[0].Element? && ns[0].elem.tag == tag then [ns[0].elem] else []) + Children(ns[1..], tag)
  }

  /** XPath './outer/tag': the `tag` children of each `outer` child, in document order. */
  function Grandchildren(ns: seq<Node>, outer: string, tag: string): (r: seq<Elem>)
    ensures forall m :: m in r ==> m.tag == tag
  {
    if ns == [] then []
    else
      (if ns[0].Element? && ns[0].elem.tag == outer then Children(ns[0].elem.kids, tag) else [])
      + Grandchildren(ns[1..], outer, tag)
  }

  /** The ids of a list of elements. */
  function Ids(ms: seq<Elem>): (r: set<nat>)
    ensures forall m :: m in ms ==> m.id in r
    ensures r == {} ==> ms == []
  {
    if ms == [] then {} else {ms[0].id} + Ids(ms[1..])
  }

  lemma {:induction false} IdsConcat(a: seq<Elem>, b: seq<Elem>)
    ensures Ids(a + b) == Ids(a) + Ids(b)
    decreases |a|
  {
    if a == [] {
      assert a + b == b;
    } else {
      assert (a + b)[1..] == a[1..] + b;
      IdsConcat(a[1..], b);
    }
  }

  // ---------------------------------------------------------------------------
  // Finding and editing a node by identity
  // ---------------------------------------------------------------------------

  /** The first element with this id, if the node object is still in the tree. */
  function FindNode(n: Node, id: nat): (r: Option<Elem>)
    ensures r.Some? ==> r.value.id == id
  {
    match n
    case Text(_) => None
    case Element(e) => if e.id == id then Some(e) else Find(e.kids, id)
  }

  function Find(ns: seq<Node>, id: nat): (r: Option<Elem>)
    ensures r.Some? ==> r.value.id == id
  {
    if ns == [] then None
    else
      match FindNode(ns[0], id)
      case Some(e) => Some(e)
      case None => Find(ns[1..], id)
  }

  /** Gives the element with this id new children (the old ones leave the tree). */
  function SetKidsNode(n: Node, id: nat, kids: seq<Node>): Node
  {
    match n
    case Text(_) => n
    case Element(e) =>
      if e.id == id then Element(e.(kids := kids)) else Element(e.(kids := SetKids(e.kids, id, kids)))
  }

  function SetKids(ns: seq<Node>, id: nat, kids: seq<Node>): seq<Node>
  {
    if ns == [] then [] else [SetKidsNode(ns[0], id, kids)] + SetKids(ns[1..], id, kids)
  }

  /** Puts `repl` where the element with this id stood (with `repl == []`, `Node#remove`). */
  function SpliceNode(n: Node, id: nat, repl: seq<Node>): seq<Node>
  {
    match n
    case Text(_) => [n]
    case Element(e) =>
      if e.id == id then repl else [Element(e.(kids := Splice(e.kids, id, repl)))]
  }

  function Splice(ns: seq<Node>, id: nat, repl: seq<Node>): seq<Node>
  {
    if ns == [] then [] else SpliceNode(ns[0], id, repl) + Splice(ns[1..], id, repl)
  }

  // ---------------------------------------------------------------------------
  // Fresh node objects
  // ---------------------------------------------------------------------------

  /** The number of elements in a tree. */
  function SizeNode(n: Node): nat
  {
    match n
    case Text(_) => 0
    case Element(e) => 1 + Size(e.kids)
  }

  function Size(ns: seq<Node>): nat
  {
    if ns == [] then 0 else SizeNode(ns[0]) + Size(ns[1..])
  }

  /** The ids of every element in a tree. */
  function NodeAllIds(n: Node): set<nat>
  {
    match n
    case Text(_) => {}
    case Element(e) => {e.id} + AllIds(e.kids)
  }

  function AllIds(ns: seq<Node>): set<nat>
  {
    if ns == [] then {} else NodeAllIds(ns[0]) + AllIds(ns[1..])
  }

  /** Gives the elements of a tree the ids start, start + 1, ... in document order. */
  function NumberNode(n: Node, start: nat): (r: Node)
    ensures SizeNode(r) == SizeNode(n)
    ensures forall i :: i in NodeAllIds(r) ==> start <= i < start + SizeNode(n)
  {
    match n
    case Text(_) => n
    case Element(e) => Element(e.(id := start, kids := Number(e.kids, start + 1)))
  }

  function Number(ns: seq<Node>, start: nat): (r: seq<Node>)
    ensures Size(r) == Size(ns)
    ensures forall i :: i in AllIds(r) ==> start <= i < start + Size(ns)
  {
    if ns == [] then [] else [NumberNode(ns[0], start)] + Number(ns[1..], start + SizeNode(ns[0]))
  }

  // ---------------------------------------------------------------------------
  // Documents and the edits the converters make
  // ---------------------------------------------------------------------------

  /** Where a fragment is parsed: inside an element with this tag, or at the top of the document. */
  datatype Context = DocumentContext | ElementContext(tag: string)

  /**
   * Nokogiri's parsers. `document` is `Nokogiri::HTML(markup)`; `fragment(context, markup)` parses
   * markup in a context. `inner_html=` parses in the context of the node itself, `replace(String)`
   * in the context of the node's parent (the document, for a top-level node).
   */
  datatype Parser = Parser(document: string -> seq<Node>, fragment: (Context, string) -> seq<Node>)

  /** The context of the parent of the first element with this id, searching below `parent`. */
  function ParentContextNode(n: Node, id: nat, parent: Context): Option<Context>
  {
    match n
    case Text(_) => None
    case Element(e) => if e.id == id then Some(parent) else ParentContext(e.kids, id, ElementContext(e.tag))
  }

  function ParentContext(ns: seq<Node>, id: nat, parent: Context): Option<Context>
  {
    if ns == [] then None
    else
      match ParentContextNode(ns[0], id, parent)
      case Some(c) => Some(c)
      case None => ParentContext(ns[1..], id, parent)
  }

  /** The context `replace(String)` parses in for the element with this id. */
  function ReplaceContext(t: Tree, id: nat): Context
  {
    match ParentContext(t.roots, id, DocumentContext)
    case Some(c) => c
    case None => DocumentContext
  }

  /** A document: its top-level nodes and the next unused node identity. */
  datatype Tree = Tree(roots: seq<Node>, next: nat)

  /** Every node object in the document has an identity below `next`. */
  predicate Fresh(t: Tree)
  {
    forall i :: i in AllIds(t.roots) ==> i < t.next
  }

  /** Parses markup into nodes that are new objects. */
  function Create(t: Tree, ns: seq<Node>): (r: seq<Node>)
    ensures forall i :: i in AllIds(r) ==> t.next <= i < t.next + Size(ns)
  {
    Number(ns, t.next)
  }

  /** `Nokogiri::HTML(markup)`. */
  function Load(p: Parser, markup: string): (t: Tree)
    ensures Fresh(t)
  {
    var ns := p.document(markup);
    Tree(Number(ns, 0), Size(ns))
  }

  /** The edits a `search(...).each` loop makes to each node it found; markup is computed from the node. */
  datatype Edit =
    | Remove                                // node.remove
    | SetInner(markup: Elem -> string)      // node.inner_html = markup
    | Replace(markup: Elem -> string)       // node.replace(markup)

  /** `"#{node.inner_html}s"`: the node's own content followed by s. */
  function Append(s: string): Elem -> string
  {
    e => InnerHtml(e) + s
  }

  /** The same markup whatever the node holds. */
  function Constant(s: string): Elem -> string
  {
    e => s
  }

  /** `'header, h1, h2, h3, h4, h5, h6'`. */
  const Headings: Selector := Tags({"header", "h1", "h2", "h3", "h4", "h5", "h6"})

  /**
   * One edit on the node object with this id. A node object that has left the document (a descendant
   * of a node whose content an earlier edit re-parsed) is no longer found, and editing it changes
   * nothing in the document.
   */
  function Apply(t: Tree, p: Parser, id: nat, edit: Edit): Tree
  {
    match Find(t.roots, id)
    case None => t
    case Some(e) =>
      match edit
      case Remove => Tree(Splice(t.roots, id, []), t.next)
      case SetInner(f) =>
        var ns := p.fragment(ElementContext(e.tag), f(e));
        Tree(SetKids(t.roots, id, Create(t, ns)), t.next + Size(ns))
      case Replace(f) =>
        var ns := p.fragment(ReplaceContext(t, id), f(e));
        Tree(Splice(t.roots, id, Create(t, ns)), t.next + Size(ns))
  }

  /** `search(...).each { edit }` over the nodes the search returned, in order. */
  function Each(t: Tree, p: Parser, ms: seq<Elem>, edit: Edit): Tree
    decreases |ms|
  {
    if ms == [] then t else Each(Apply(t, p, ms[0].id, edit), p, ms[1..], edit)
  }

  // ---------------------------------------------------------------------------
  // Edits keep node identities fresh
  // ---------------------------------------------------------------------------

  lemma {:induction false} AllIdsConcat(a: seq<Node>, b: seq<Node>)
    ensures AllIds(a + b) == AllIds(a) + AllIds(b)
    decreases |a|
  {
    if a == [] {
      assert a + b == b;
    } else {
      assert (a + b)[1..] == a[1..] + b;
      AllIdsConcat(a[1..], b);
    }
  }

  lemma {:induction false} SetKidsNodeIds(n: Node, id: nat, kids: seq<Node>)
    ensures NodeAllIds(SetKidsNode(n, id, kids)) <= NodeAllIds(n) + AllIds(kids)
    decreases n, 1
  {
    match n
    case Text(_) =>
    case Element(e) =>
      if e.id != id {
        SetKidsIds(e.kids, id, kids);
      }
  }

  lemma {:induction false} SetKidsIds(ns: seq<Node>, id: nat, kids: seq<Node>)
    ensures AllIds(SetKids(ns, id, kids)) <= AllIds(ns) + AllIds(kids)
    decreases ns, 0
  {
    if ns != [] {
      SetKidsNodeIds(ns[0], id, kids);
      SetKidsIds(ns[1..], id, kids);
      assert SetKids(ns, id, kids)[1..] == SetKids(ns[1..], id, kids);
    }
  }

  lemma {:induction false} SpliceNodeIds(n: Node, id: nat, repl: seq<Node>)
    ensures AllIds(SpliceNode(n, id, repl)) <= NodeAllIds(n) + AllIds(repl)
    decreases n, 1
  {
    match n
    case Text(_) =>
      assert AllIds([n]) == NodeAllIds(n) + AllIds([]);
    case Element(e) =>
      if e.id != id {
        var e' := e.(kids := Splice(e.kids, id, repl));
        SpliceIds(e.kids, id, repl);
        assert AllIds([Element(e')]) == NodeAllIds(Element(e')) + AllIds([]);
      }
  }

  lemma {:induction false} SpliceIds(ns: seq<Node>, id: nat, repl: seq<Node>)
    ensures AllIds(Splice(ns, id, repl)) <= AllIds(ns) + AllIds(repl)
    decreases ns, 0
  {
    if ns != [] {
      SpliceNodeIds(ns[0], id, repl);
      SpliceIds(ns[1..], id, repl);
      AllIdsConcat(SpliceNode(ns[0], id, repl), Splice(ns[1..], id, repl));
    }
  }

  /** Every edit leaves the document's node identities below its counter. */
  lemma ApplyFresh(t: Tree, p: Parser, id: nat, edit: Edit)
    requires Fresh(t)
    ensures Fresh(Apply(t, p, id, edit)) && Apply(t, p, id, edit).next >= t.next
  {
    match Find(t.roots, id)
    case None =>
    case Some(e) =>
      match edit
      case Remove => SpliceIds(t.roots, id, []);
      case SetInner(f) =>
        var ns := p.fragment(ElementContext(e.tag), f(e));
        SetKidsIds(t.roots, id, Create(t, ns));
      case Replace(f) =>
        var ns := p.fragment(ReplaceContext(t, id), f(e));
        SpliceIds(t.roots, id, Create(t, ns));
  }

  // ---------------------------------------------------------------------------
  // Removal leaves nothing the search could find
  // ---------------------------------------------------------------------------

  lemma {:induction false} SelectSpliceNode(n: Node, id: nat, sel: Selector, inside: bool)
    ensures Ids(SelectAll(SpliceNode(n, id, []), sel, inside)) <= Ids(SelectNode(n, sel, inside)) - {id}
    decreases n, 1
  {
    match n
    case Text(_) =>
      assert SelectAll([n], sel, inside) == SelectNode(n, sel, inside) + SelectAll([], sel, inside);
    case Element(e) =>
      if e.id != id {
        var e' := e.(kids := Splice(e.kids, id, []));
        var head: seq<Elem> := if Matches(sel, e, inside) then [e] else [];
        var head': seq<Elem> := if Matches(sel, e', inside) then [e'] else [];
        var below := SelectAll(e.kids, sel, Enters(sel, e, inside));
        var below' := SelectAll(e'.kids, sel, Enters(sel, e, inside));
        assert Matches(sel, e', inside) == Matches(sel, e, inside);
        assert Enters(sel, e', inside) == Enters(sel, e, inside);
        assert SpliceNode(n, id, []) == [Element(e')];
        assert SelectAll([Element(e')], sel, inside) == SelectNode(Element(e'), sel, inside) + SelectAll([], sel, inside);
        assert SelectNode(Element(e'), sel, inside) == head' + below';
        assert SelectNode(n, sel, inside) == head + below;
        SelectSplice(e.kids, id, sel, Enters(sel, e, inside));
        IdsConcat(head', below');
        IdsConcat(head, below);
        assert Ids(head') == Ids(head) <= {e.id} by {
          if head != [] {
            assert Ids([e]) == {e.id} + Ids([]);
            assert Ids([e']) == {e'.id} + Ids([]);
          }
        }
        assert SelectAll(SpliceNode(n, id, []), sel, inside) == head' + below';
        assert Ids(head' + below') <= Ids(head + below) - {id};
      }
  }

  lemma {:induction false} SelectSplice(ns: seq<Node>, id: nat, sel: Selector, inside: bool)
    ensures Ids(SelectAll(Splice(ns, id, []), sel, inside)) <= Ids(SelectAll(ns, sel, inside)) - {id}
    decreases ns, 0
  {
    if ns != [] {
      SelectSpliceNode(ns[0], id, sel, inside);
      SelectSplice(ns[1..], id, sel, inside);
      SelectAllConcat(SpliceNode(ns[0], id, []), Splice(ns[1..], id, []), sel, inside);
      IdsConcat(SelectAll(SpliceNode(ns[0], id, []), sel, inside), SelectAll(Splice(ns[1..], id, []), sel, inside));
      IdsConcat(SelectNode(ns[0], sel, inside), SelectAll(ns[1..], sel, inside));
    }
  }

  lemma {:induction false} RemoveEachClears(t: Tree, p: Parser, ms: seq<Elem>, sel: Selector)
    requires Ids(Search(t.roots, sel)) <= Ids(ms)
    ensures Search(Each(t, p, ms, Remove).roots, sel) == []
    decreases |ms|
  {
    if ms == [] {
    } else {
      var t' := Apply(t, p, ms[0].id, Remove);
      if Find(t.roots, ms[0].id).Some? {
        SelectSplice(t.roots, ms[0].id, sel, false);
      }
      assert Ids(Search(t'.roots, sel)) <= Ids(ms[1..]) by {
        assert Ids(ms) == {ms[0].id} + Ids(ms[1..]);
        if Find(t.roots, ms[0].id).None? {
          FindMissing(t.roots, ms[0].id, sel, false);
        }
      }
      RemoveEachClears(t', p, ms[1..], sel);
    }
  }

  /** An id the tree does not hold is not among the ids a search returns. */
  lemma {:induction false} FindMissingNode(n: Node, id: nat, sel: Selector, inside: bool)
    requires FindNode(n, id).None?
    ensures id !in Ids(SelectNode(n, sel, inside))
    decreases n, 1
  {
    match n
    case Text(_) =>
    case Element(e) =>
      FindMissing(e.kids, id, sel, Enters(sel, e, inside));
      IdsConcat(if Matches(sel, e, inside) then [e] else [], SelectAll(e.kids, sel, Enters(sel, e, inside)));
  }

  lemma {:induction false} FindMissing(ns: seq<Node>, id: nat, sel: Selector, inside: bool)
    requires Find(ns, id).None?
    ensures id !in Ids(SelectAll(ns, sel, inside))
    decreases ns, 0
  {
    if ns != [] {
      FindMissingNode(ns[0], id, sel, inside);
      FindMissing(ns[1..], id, sel, inside);
      IdsConcat(SelectNode(ns[0], sel, inside), SelectAll(ns[1..], sel, inside));
    }
  }

  /** Removing nodes never brings back an element a search had stopped finding. */
  lemma RemoveKeepsCleared(t: Tree, p: Parser, ms: seq<Elem>, sel: Selector)
    requires Search(t.roots, sel) == []
    ensures Search(Each(t, p, ms, Remove).roots, sel) == []
  {
    RemoveEachClears(t, p, ms, sel);
  }

  /** `doc.search(css).remove` leaves no element the same search would find. */
  lemma SearchRemoveClears(t: Tree, p: Parser, sel: Selector)
    ensures Search(Each(t, p, Search(t.roots, sel), Remove).roots, sel) == []
  {
    RemoveEachClears(t, p, Search(t.roots, sel), sel);
  }

  /** The context search and the identity search find the same element: one succeeds exactly when the other does. */
  lemma {:induction false} ParentContextNodeFound(n: Node, id: nat, parent: Context)
    ensures ParentContextNode(n, id, parent).Some? <==> FindNode(n, id).Some?
    decreases n, 1
  {
    match n
    case Text(_) =>
    case Element(e) =>
      if e.id != id {
        ParentContextFound(e.kids, id, ElementContext(e.tag));
      }
  }

  lemma {:induction false} ParentContextFound(ns: seq<Node>, id: nat, parent: Context)
    ensures ParentContext(ns, id, parent).Some? <==> Find(ns, id).Some?
    decreases ns, 0
  {
    if ns != [] {
      ParentContextNodeFound(ns[0], id, parent);
      ParentContextFound(ns[1..], id, parent);
    }
  }

  /**
   * For an element of the document, `replace(String)` parses in the context of the element's own
   * parent: the fallback to the document context is never taken.
   */
  lemma ReplaceContextOfFound(t: Tree, id: nat)
    requires Find(t.roots, id).Some?
    ensures ParentContext(t.roots, id, DocumentContext) == Some(ReplaceContext(t, id))
  {
    ParentContextFound(t.roots, id, DocumentContext);
  }

  // ---------------------------------------------------------------------------
  // Removed and replaced nodes leave the document
  // ---------------------------------------------------------------------------

  /** A node object is found exactly when its identity occurs in the tree. */
  lemma {:induction false} FindNodeIds(n: Node, id: nat)
    ensures FindNode(n, id).Some? <==> id in NodeAllIds(n)
    decreases n, 1
  {
    match n
    case Text(_) =>
    case Element(e) =>
      FindIds(e.kids, id);
  }

  lemma {:induction false} FindIds(ns: seq<Node>, id: nat)
    ensures Find(ns, id).Some? <==> id in AllIds(ns)
    decreases ns, 0
  {
    if ns != [] {
      FindNodeIds(ns[0], id);
      FindIds(ns[1..], id);
    }
  }

  /** Splicing out an identity leaves no element with it, unless the replacement brings one. */
  lemma {:induction false} SpliceNodeDrops(n: Node, id: nat, repl: seq<Node>)
    requires id !in AllIds(repl)
    ensures id !in AllIds(SpliceNode(n, id, repl))
    decreases n, 1
  {
    match n
    case Text(_) =>
      assert AllIds([n]) == NodeAllIds(n) + AllIds([]);
    case Element(e) =>
      if e.id != id {
        var e' := e.(kids := Splice(e.kids, id, repl));
        SpliceDrops(e.kids, id, repl);
        assert AllIds([Element(e')]) == NodeAllIds(Element(e')) + AllIds([]);
      }
  }

  lemma {:induction false} SpliceDrops(ns: seq<Node>, id: nat, repl: seq<Node>)
    requires id !in AllIds(repl)
    ensures id !in AllIds(Splice(ns, id, repl))
    decreases ns, 0
  {
    if ns != [] {
      SpliceNodeDrops(ns[0], id, repl);
      SpliceDrops(ns[1..], id, repl);
      AllIdsConcat(SpliceNode(ns[0], id, repl), Splice(ns[1..], id, repl));
    }
  }

  /** An identity below the counter that has left the document never comes back: new nodes get new identities. */
  lemma ApplyKeepsAbsent(t: Tree, p: Parser, id: nat, edit: Edit, x: nat)
    requires x < t.next && x !in AllIds(t.roots)
    ensures x !in AllIds(Apply(t, p, id, edit).roots) && Apply(t, p, id, edit).next >= t.next
  {
    match Find(t.roots, id)
    case None =>
    case Some(e) =>
      match edit
      case Remove => SpliceIds(t.roots, id, []);
      case SetInner(f) =>
        var ns := p.fragment(ElementContext(e.tag), f(e));
        SetKidsIds(t.roots, id, Create(t, ns));
      case Replace(f) =>
        var ns := p.fragment(ReplaceContext(t, id), f(e));
        SpliceIds(t.roots, id, Create(t, ns));
  }

  /** `remove` and `replace` take the node object out of the document. */
  lemma Detaches(t: Tree, p: Parser, id: nat, edit: Edit)
    requires Fresh(t) && id < t.next && !edit.SetInner?
    ensures Find(Apply(t, p, id, edit).roots, id).None? && Apply(t, p, id, edit).next >= t.next
  {
    var t' := Apply(t, p, id, edit);
    match Find(t.roots, id)
    case None =>
      FindIds(t.roots, id);
      FindIds(t'.roots, id);
    case Some(e) =>
      var ns := if edit.Remove? then [] else p.fragment(ReplaceContext(t, id), edit.markup(e));
      assert id !in AllIds(Create(t, ns));
      SpliceDrops(t.roots, id, Create(t, ns));
      FindIds(t'.roots, id);
  }

  /** Every element a search returns is an element of the tree. */
  lemma {:induction false} SelectNodeIds(n: Node, sel: Selector, inside: bool)
    ensures Ids(SelectNode(n, sel, inside)) <= NodeAllIds(n)
    decreases n, 1
  {
    match n
    case Text(_) =>
    case Element(e) =>
      SelectAllIds(e.kids, sel, Enters(sel, e, inside));
      var head: seq<Elem> := if Matches(sel, e, inside) then [e] else [];
      IdsConcat(head, SelectAll(e.kids, sel, Enters(sel, e, inside)));
      assert Ids(head) <= {e.id} by {
        if head != [] {
          assert Ids([e]) == {e.id} + Ids([]);
        }
      }
  }

  lemma {:induction false} SelectAllIds(ns: seq<Node>, sel: Selector, inside: bool)
    ensures Ids(SelectAll(ns, sel, inside)) <= AllIds(ns)
    decreases ns, 0
  {
    if ns != [] {
      SelectNodeIds(ns[0], sel, inside);
      SelectAllIds(ns[1..], sel, inside);
      IdsConcat(SelectNode(ns[0], sel, inside), SelectAll(ns[1..], sel, inside));
    }
  }

  /** After a loop of `remove` or `replace` over some node objects, none of them is in the document. */
  lemma {:induction false} EachDetaches(t: Tree, p: Parser, ms: seq<Elem>, edit: Edit)
    requires Fresh(t) && !edit.SetInner? && forall m :: m in ms ==> m.id < t.next
    ensures forall m :: m in ms ==> Find(Each(t, p, ms, edit).roots, m.id).None?
    decreases |ms|
  {
    if ms != [] {
      var t' := Apply(t, p, ms[0].id, edit);
      Detaches(t, p, ms[0].id, edit);
      ApplyFresh(t, p, ms[0].id, edit);
      assert forall m :: m in ms[1..] ==> m in ms;
      EachDetaches(t', p, ms[1..], edit);
      FindIds(t'.roots, ms[0].id);
      EachKeepsAbsent(t', p, ms[1..], edit, ms[0].id);
      FindIds(Each(t', p, ms[1..], edit).roots, ms[0].id);
    }
  }

  lemma {:induction false} EachKeepsAbsent(t: Tree, p: Parser, ms: seq<Elem>, edit: Edit, x: nat)
    requires x < t.next && x !in AllIds(t.roots)
    ensures x !in AllIds(Each(t, p, ms, edit).roots)
    decreases |ms|
  {
    if ms != [] {
      ApplyKeepsAbsent(t, p, ms[0].id, edit, x);
      EachKeepsAbsent(Apply(t, p, ms[0].id, edit), p, ms[1..], edit, x);
    }
  }

  /** `doc.search(css).each { |n| n.replace(...) }` (or `.remove`): no node object the search found is left in the document. */
  lemma SearchEachDetaches(t: Tree, p: Parser, sel: Selector, edit: Edit)
    requires Fresh(t) && !edit.SetInner?
    ensures forall m :: m in Search(t.roots, sel) ==> Find(Each(t, p, Search(t.roots, sel), edit).roots, m.id).None?
  {
    SelectAllIds(t.roots, sel, false);
    EachDetaches(t, p, Search(t.roots, sel), edit);
  }

  // ---------------------------------------------------------------------------
  // Removal keeps everything outside the removed nodes
  // ---------------------------------------------------------------------------

  /** An element with identity x and this tag lies in the tree below no element whose identity is in `gone` (and is not one). */
  predicate OutsideNode(n: Node, x: nat, tag: string, gone: set<nat>)
  {
    match n
    case Text(_) => false
    case Element(e) => e.id !in gone && ((e.id == x && e.tag == tag) || Outside(e.kids, x, tag, gone))
  }

  predicate Outside(ns: seq<Node>, x: nat, tag: string, gone: set<nat>)
  {
    ns != [] && (OutsideNode(ns[0], x, tag, gone) || Outside(ns[1..], x, tag, gone))
  }

  lemma {:induction false} OutsideConcat(a: seq<Node>, b: seq<Node>, x: nat, tag: string, gone: set<nat>)
    ensures Outside(a + b, x, tag, gone) <==> Outside(a, x, tag, gone) || Outside(b, x, tag, gone)
    decreases |a|
  {
    if a == [] {
      assert a + b == b;
    } else {
      assert (a + b)[1..] == a[1..] + b;
      OutsideConcat(a[1..], b, x, tag, gone);
    }
  }

  lemma {:induction false} SpliceNodeKeepsOutside(n: Node, id: nat, repl: seq<Node>, x: nat, tag: string, gone: set<nat>)
    requires id in gone && OutsideNode(n, x, tag, gone)
    ensures Outside(SpliceNode(n, id, repl), x, tag, gone)
    decreases n, 1
  {
    match n
    case Element(e) =>
      var e' := e.(kids := Splice(e.kids, id, repl));
      if !(e.id == x && e.tag == tag) {
        SpliceKeepsOutside(e.kids, id, repl, x, tag, gone);
      }
      assert OutsideNode(Element(e'), x, tag, gone);
      assert [Element(e')][1..] == [];
  }

  /** Splicing at a node in `gone` (removing it, or replacing it by anything) keeps what lies outside `gone`. */
  lemma {:induction false} SpliceKeepsOutside(ns: seq<Node>, id: nat, repl: seq<Node>, x: nat, tag: string, gone: set<nat>)
    requires id in gone && Outside(ns, x, tag, gone)
    ensures Outside(Splice(ns, id, repl), x, tag, gone)
    decreases ns, 0
  {
    OutsideConcat(SpliceNode(ns[0], id, repl), Splice(ns[1..], id, repl), x, tag, gone);
    if OutsideNode(ns[0], x, tag, gone) {
      SpliceNodeKeepsOutside(ns[0], id, repl, x, tag, gone);
    } else {
      SpliceKeepsOutside(ns[1..], id, repl, x, tag, gone);
    }
  }

  /** `remove` or `replace` of a node in `gone` keeps every element outside `gone`. */
  lemma DetachKeepsOutside(t: Tree, p: Parser, id: nat, edit: Edit, x: nat, tag: string, gone: set<nat>)
    requires !edit.SetInner? && id in gone && Outside(t.roots, x, tag, gone)
    ensures Outside(Apply(t, p, id, edit).roots, x, tag, gone)
  {
    match Find(t.roots, id)
    case None =>
    case Some(e) =>
      var ns := if edit.Remove? then [] else p.fragment(ReplaceContext(t, id), edit.markup(e));
      SpliceKeepsOutside(t.roots, id, Create(t, ns), x, tag, gone);
  }

  /** An element outside the removed nodes is in the tree, so it is found. */
  lemma OutsideFound(ns: seq<Node>, x: nat, tag: string, gone: set<nat>)
    requires Outside(ns, x, tag, gone)
    ensures x in Ids(Search(ns, Tags({tag}))) && Find(ns, x).Some?
  {
    OutsideSelected(ns, x, tag, gone, false);
    SelectAllIds(ns, Tags({tag}), false);
    FindIds(ns, x);
  }

  /** Removing node objects keeps every element that is not below one of them. */
  lemma {:induction false} RemoveKeepsOutside(t: Tree, p: Parser, ms: seq<Elem>, x: nat, tag: string, gone: set<nat>)
    requires Ids(ms) <= gone && Outside(t.roots, x, tag, gone)
    ensures Outside(Each(t, p, ms, Remove).roots, x, tag, gone)
    decreases |ms|
  {
    if ms != [] {
      DetachKeepsOutside(t, p, ms[0].id, Remove, x, tag, gone);
      RemoveKeepsOutside(Apply(t, p, ms[0].id, Remove), p, ms[1..], x, tag, gone);
    }
  }

  /** An element outside the removed nodes is still found by a search for its tag. */
  lemma {:induction false} OutsideNodeSelected(n: Node, x: nat, tag: string, gone: set<nat>, inside: bool)
    requires OutsideNode(n, x, tag, gone)
    ensures x in Ids(SelectNode(n, Tags({tag}), inside))
    decreases n, 1
  {
    match n
    case Element(e) =>
      var head: seq<Elem> := if Matches(Tags({tag}), e, inside) then [e] else [];
      var below := SelectAll(e.kids, Tags({tag}), Enters(Tags({tag}), e, inside));
      IdsConcat(head, below);
      if e.id == x && e.tag == tag {
        assert Ids([e]) == {e.id} + Ids([]);
      } else {
        OutsideSelected(e.kids, x, tag, gone, Enters(Tags({tag}), e, inside));
      }
  }

  lemma {:induction false} OutsideSelected(ns: seq<Node>, x: nat, tag: string, gone: set<nat>, inside: bool)
    requires Outside(ns, x, tag, gone)
    ensures x in Ids(SelectAll(ns, Tags({tag}), inside))
    decreases ns, 0
  {
    IdsConcat(SelectNode(ns[0], Tags({tag}), inside), SelectAll(ns[1..], Tags({tag}), inside));
    if OutsideNode(ns[0], x, tag, gone) {
      OutsideNodeSelected(ns[0], x, tag, gone, inside);
    } else {
      OutsideSelected(ns[1..], x, tag, gone, inside);
    }
  }
}
