/**
 * The string-level helpers of Ghostwriter::Writer (lib/ghostwriter/writer.rb): whitespace
 * normalisation of the raw markup, link matching, link-base lookup, href resolution and the
 * content an anchor gets.
 */
module GhostwriterLinks {
  import opened Results
  import opened RubyStrings
  import opened Dom

  // ---------------------------------------------------------------------------
  // normalize_whitespace
  // ---------------------------------------------------------------------------

  /** `html.gsub(/\s/, ' ').squeeze(' ')`: no whitespace other than single plain spaces remains,
      and every character that is not whitespace survives, in order. */
  function NormalizeWhitespace(html: string): (r: string)
    ensures OnlyPlainSpaces(r) && NoDoubleSpace(r)
    ensures RemoveChars(r, {' '}) == RemoveChars(html, {' ', '\t', '\n', '\U{0B}', '\U{0C}', '\r'})
  {
    var b := BlankRegexSpaces(html);
    BlankRegexSpacesPlain(html);
    SqueezeNoDoubleSpace(b);
    SqueezeKeepsNonSpaces(b);
    SqueezePlain(b);
    Squeeze(b)
  }

  lemma SqueezePlain(s: string)
    requires OnlyPlainSpaces(s)
    ensures OnlyPlainSpaces(Squeeze(s))
  {
    var r := Squeeze(s);
    SqueezeChars(s);
    forall i | 0 <= i < |r| && IsRegexSpace(r[i]) ensures r[i] == ' ' {
      assert r[i] in s;
      var j :| 0 <= j < |s| && s[j] == r[i];
    }
  }

  lemma NormalizeWhitespaceIdempotent(html: string)
    ensures NormalizeWhitespace(NormalizeWhitespace(html)) == NormalizeWhitespace(html)
  {
    var r := NormalizeWhitespace(html);
    assert BlankRegexSpaces(r) == r by {
      BlankPlainIsIdentity(r);
    }
    SqueezeFixpoint(r);
  }

  lemma {:induction false} BlankPlainIsIdentity(s: string)
    requires OnlyPlainSpaces(s)
    ensures BlankRegexSpaces(s) == s
  {
    if s != [] {
      assert OnlyPlainSpaces(s[1..]) by {
        forall i | 0 <= i < |s[1..]| ensures IsRegexSpace(s[1..][i]) ==> s[1..][i] == ' ' {
          assert s[1..][i] == s[i + 1];
        }
      }
      BlankPlainIsIdentity(s[1..]);
      assert IsRegexSpace(s[0]) ==> s[0] == ' ';
      assert s == [s[0]] + s[1..];
    }
  }

  /** The two-step normalisation equals the single `gsub(/\s+/, ' ')` of the oldest pipeline. */
  lemma NormalizeWhitespaceIsCollapse(html: string)
    ensures NormalizeWhitespace(html) == CollapseRegexSpaceRuns(html)
  {
    CollapseIsBlankThenSqueeze(html);
  }

  // ---------------------------------------------------------------------------
  // Per-line prefix removal (Ruby's ^ anchor)
  // ---------------------------------------------------------------------------

  /** One line without a leading "http://" or "https://". */
  function StripWebSchemeLine(l: string): string
  {
    if StartsWith(l, "http://") then l[7..] else if StartsWith(l, "https://") then l[8..] else l
  }

  /** `gsub(%r{^https?://}, '')`: every line loses one leading "http://" or "https://". */
  function StripWebSchemes(s: string): string
  {
    var ls := Lines(s);
    Join(seq(|ls|, i requires 0 <= i < |ls| => StripWebSchemeLine(ls[i])))
  }

  /** One line without a leading "tel:" or "mailto:". */
  function StripContactSchemeLine(l: string): string
  {
    if StartsWith(l, "tel:") then l[4..] else if StartsWith(l, "mailto:") then l[7..] else l
  }

  /** `gsub(/^(tel|mailto):/, '')`. */
  function StripContactSchemes(s: string): string
  {
    var ls := Lines(s);
    Join(seq(|ls|, i requires 0 <= i < |ls| => StripContactSchemeLine(ls[i])))
  }

  /** A string without "\n" is one line. */
  lemma OneLine(l: string)
    requires '\n' !in l
    ensures Lines(l) == [l]
  {
    SplitJoin([l], '\n');
  }

  lemma StripWebSchemesOneLine(l: string)
    requires '\n' !in l
    ensures StripWebSchemes(l) == StripWebSchemeLine(l)
  {
    OneLine(l);
  }

  lemma StripContactSchemesOneLine(l: string)
    requires '\n' !in l
    ensures StripContactSchemes(l) == StripContactSchemeLine(l)
  {
    OneLine(l);
  }

  // ---------------------------------------------------------------------------
  // link_matches
  // ---------------------------------------------------------------------------

  /** The form link_matches compares: web schemes removed, then one trailing "/" chomped. */
  function Canonical(s: string): string
  {
    ChompSlash(StripWebSchemes(s))
  }

  /** `link_matches(first, second)`. */
  predicate LinkMatches(first: string, second: string)
  {
    Canonical(first) == Canonical(second)
  }

  lemma LinkMatchesSymmetric(a: string, b: string)
    ensures LinkMatches(a, b) == LinkMatches(b, a)
  {
  }

  /** A one-line address matches itself behind "http://" or "https://". */
  lemma LinkMatchesIgnoresWebScheme(x: string)
    requires '\n' !in x && !StartsWith(x, "http://") && !StartsWith(x, "https://")
    ensures LinkMatches("http://" + x, x) && LinkMatches("https://" + x, x)
  {
    StripWebSchemesOneLine(x);
    StripWebSchemesOneLine("http://" + x);
    StripWebSchemesOneLine("https://" + x);
    assert ("http://" + x)[7..] == x;
    assert ("https://" + x)[..7][4] == 's' != "http://"[4];
    assert ("https://" + x)[8..] == x;
  }

  /** Other schemes, such as "ftp://", are part of what is compared. */
  lemma CanonicalKeepsOtherSchemes(x: string)
    requires '\n' !in x && !StartsWith(x, "http://") && !StartsWith(x, "https://")
    ensures Canonical(x) == ChompSlash(x)
  {
    StripWebSchemesOneLine(x);
  }

  // ---------------------------------------------------------------------------
  // get_link_base and the href an anchor resolves to
  // ---------------------------------------------------------------------------

  /** How Ruby's URI() classifies an href string. */
  datatype UriKind = InvalidUri | RelativeUri | AbsoluteUri

  /** `get_link_base(doc)`: the href of the first `<base>` (nil if it has none), or else the writer's link base. */
  function LinkBase(roots: seq<Node>, linkBase: string): (r: Option<string>)
    ensures Search(roots, Tags({"base"})) == [] ==> r == Some(linkBase)
    ensures Search(roots, Tags({"base"})) != [] ==> r == Attribute(Search(roots, Tags({"base"}))[0].attrs, "href")
  {
    var bases := Search(roots, Tags({"base"}));
    if bases == [] then Some(linkBase) else Attribute(bases[0].attrs, "href")
  }

  /** `doc.search('base').first` is the first `<base>` in document order: one in an earlier part of the document wins. */
  lemma LinkBaseFirstWins(a: seq<Node>, b: seq<Node>, linkBase: string)
    ensures Search(a, Tags({"base"})) != [] ==> LinkBase(a + b, linkBase) == LinkBase(a, linkBase)
    ensures Search(a, Tags({"base"})) == [] ==> LinkBase(a + b, linkBase) == LinkBase(b, linkBase)
  {
    SelectAllConcat(a, b, Tags({"base"}), false);
  }

  /**
   * The href an anchor shows (writer.rb lines 50-55): URI(nil) raises ArgumentError; an absolute
   * URI is kept; a relative one is put after the link base, and a nil base raises NoMethodError;
   * an href URI() rejects loses a leading "tel:" or "mailto:" on each line and is stripped.
   */
  function ResolveHref(href: Option<string>, uri: string -> UriKind, base: Option<string>): (r: Result<string>)
    ensures href.None? ==> r == Raised(ArgumentError)
    ensures href.Some? && uri(href.value) == AbsoluteUri ==> r == Ok(href.value)
    ensures href.Some? && uri(href.value) == RelativeUri && base.Some? ==> r == Ok(base.value + href.value)
    ensures href.Some? && uri(href.value) == RelativeUri && base.None? ==> r == Raised(NoMethodError)
    ensures href.Some? && uri(href.value) == InvalidUri ==> r == Ok(Strip(StripContactSchemes(href.value)))
  {
    match href
    case None => Raised(ArgumentError)
    case Some(h) =>
      match uri(h)
      case AbsoluteUri => Ok(h)
      case RelativeUri => if base.Some? then Ok(base.value + h) else Raised(NoMethodError)
      case InvalidUri => Ok(Strip(StripContactSchemes(h)))
  }

  /** Resolving raises exactly for a nil href (ArgumentError) or a relative one without a base (NoMethodError). */
  lemma ResolveHrefRaises(href: Option<string>, uri: string -> UriKind, base: Option<string>)
    ensures ResolveHref(href, uri, base).Raised? <==> href.None? || (uri(href.value) == RelativeUri && base.None?)
    ensures ResolveHref(href, uri, base).Raised? ==>
              ResolveHref(href, uri, base).error == if href.None? then ArgumentError else NoMethodError
  {
  }

  /** In a document without `<base>`, a relative href is put after the writer's link base and kept whole. */
  lemma RelativeHrefUsesWriterBase(roots: seq<Node>, linkBase: string, h: string, uri: string -> UriKind)
    requires Search(roots, Tags({"base"})) == [] && uri(h) == RelativeUri
    ensures var r := ResolveHref(Some(h), uri, LinkBase(roots, linkBase));
      r == Ok(linkBase + h) && EndsWith(r.value, h) && StartsWith(r.value, linkBase)
  {
    var r := linkBase + h;
    assert r[|r| - |h|..] == h;
    assert r[..|linkBase|] == linkBase;
  }

  /** A "mailto:" or "tel:" href that URI() rejects shows the bare address. */
  lemma ContactHref(scheme: string, x: string, uri: string -> UriKind, base: Option<string>)
    requires scheme == "tel:" || scheme == "mailto:"
    requires '\n' !in x && uri(scheme + x) == InvalidUri
    ensures ResolveHref(Some(scheme + x), uri, base) == Ok(Strip(x))
  {
    assert '\n' !in scheme + x;
    StripContactSchemesOneLine(scheme + x);
    if scheme == "tel:" {
      assert (scheme + x)[4..] == x;
    } else {
      assert (scheme + x)[..4] != "tel:";
      assert (scheme + x)[7..] == x;
    }
  }

  /** The content an anchor gets: the href alone when it matches the link text, else both. */
  function AnchorMarkup(href: string, inner: string): (r: string)
    ensures LinkMatches(href, inner) ==> r == href
    ensures !LinkMatches(href, inner) ==> r == inner + " (" + href + ")"
  {
    if LinkMatches(href, inner) then href else inner + " (" + href + ")"
  }

  /** The anchor shows the href alone exactly when it matches the link text; otherwise the text comes first. */
  lemma AnchorShowsHrefAlone(href: string, inner: string)
    ensures AnchorMarkup(href, inner) == href <==> LinkMatches(href, inner)
    ensures !LinkMatches(href, inner) ==> StartsWith(AnchorMarkup(href, inner), inner)
  {
    if !LinkMatches(href, inner) {
      var r := inner + " (" + href + ")";
      assert |r| > |href|;
      assert r[..|inner|] == inner;
    }
  }

  /** A one-line link whose text is its own address, with or without a web scheme, shows the address once. */
  lemma AnchorShowsAddressOnce(href: string, inner: string)
    requires '\n' !in href && '\n' !in inner
    requires !StartsWith(inner, "http://") && !StartsWith(inner, "https://")
    requires href == inner || href == "http://" + inner || href == "https://" + inner
    ensures AnchorMarkup(href, inner) == href
  {
    LinkMatchesIgnoresWebScheme(inner);
  }

  /** Without a web scheme on either side (an "ftp://" link, say), the two are compared as written,
      up to one trailing "/". */
  lemma AnchorWithoutWebScheme(href: string, inner: string)
    requires '\n' !in href && !StartsWith(href, "http://") && !StartsWith(href, "https://")
    requires '\n' !in inner && !StartsWith(inner, "http://") && !StartsWith(inner, "https://")
    ensures AnchorMarkup(href, inner) ==
            if ChompSlash(href) == ChompSlash(inner) then href else inner + " (" + href + ")"
  {
    CanonicalKeepsOtherSchemes(href);
    CanonicalKeepsOtherSchemes(inner);
  }
}
