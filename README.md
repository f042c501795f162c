# Ghostwriter and Dirt::Textify in Dafny

This project models three generations of one Ruby HTML-to-text converter. Each generation is a fixed
pipeline of rewrites over a parsed Nokogiri document, followed by string normalisation:

- `Ghostwriter::Writer#textify` (lib/ghostwriter/writer.rb), the current converter. It normalises
  whitespace and pads `</p>`, then removes style and script elements. It resolves and matches links,
  substitutes images, flattens presentation roles and decorates headers. It numbers and bullets lists,
  lays out tables in two passes, substitutes rules and line breaks, and trims the space runs at the
  ends of every line.
- `Dirt::Textify::Decoder#textify` (lib/dirt/textify/decoder.rb), the second generation. It holds the
  caller's String object itself and, on `textify`, works on a copy of the value it has then.
- `Dirt::Textify.textify` (lib/dirt/textify.rb), the first generation. It rewrites the caller's string
  in place and returns the text untrimmed.

Modules:

- `Results`: Ruby exceptions as values (`Result`, `Option`).
- `RubyStrings`: the String methods the converters use, as functions with their laws.
  - `gsub` with the fixed patterns, where `^` and `$` are line anchors;
  - `squeeze(' ')`, `chomp('/')`, `strip`, `ljust`, `Integer#to_s`.
- `Dom`: the document tree, searches, `inner_html`, `text` and the three edits (`remove`,
  `inner_html=`, `replace`).
  - Every element carries an identity. An edit on an element an earlier edit re-parsed away finds
    nothing and changes nothing, as it cannot reach the document in Ruby either.
  - Fresh nodes get identities that were never used, so a detached node object can never be found
    again.
- `Documents`: the document object, a class whose methods change the tree in place.
- `GhostwriterLinks`, `GhostwriterTables`, `Ghostwriter`: the writer. The `Writer` class's methods
  mirror the private methods of writer.rb. Each method's postcondition ties the new document to a
  function of the old one, and lemmas state what those functions promise.
- `DirtDecoder` and `DirtTextify`: the two older pipelines.

Parsing (`Nokogiri::HTML` and the fragment parser behind `inner_html=` and `replace`) is a parameter
of type `Dom.Parser`. `inner_html=` parses in the context of the node itself and `replace` in the
context of its parent, the document for a top-level node. How Ruby's `URI()` classifies an href is a parameter of type
`string -> UriKind`.

Where the tests and the code disagree, the model follows the code:

- spec/ghostwriter/writer_spec.rb calls `Writer.new(html).textify` and `textify(link_base: ...)`.
  writer.rb takes `link_base:` in the constructor and `html` in `textify`.
- The header test expects text starting `'- A header -'`. writer.rb line 78 produces
  `"-- A header --\n"` (see `Ghostwriter.HeaderText`).

## Model

| member | source | states |
|---|---|---|
| RubyStrings.SqueezeIdempotent | lib/ghostwriter/writer.rb:45 | `squeeze(' ')` applied twice equals applying it once |
| RubyStrings.SqueezeKeepsNonSpaces | lib/ghostwriter/writer.rb:45 | squeezing deletes only spaces: every other character survives, in order |
| RubyStrings.SqueezeIsCollapseSpaceRuns | lib/ghostwriter/writer.rb:78 | `squeeze(' ')` turns each maximal run of spaces into exactly one space and keeps every other character |
| RubyStrings.CollapseIsBlankThenSqueeze | lib/dirt/textify.rb:8 | `gsub(/\s+/, ' ')` equals `gsub(/\s/, ' ').squeeze(' ')` |
| RubyStrings.UnpadPadParagraphs | lib/ghostwriter/writer.rb:17 | `gsub('</p>', "</p>\n\n")` loses nothing: removing the two newlines after each `</p>` gives back the input |
| RubyStrings.PadParagraphsFollowed | lib/ghostwriter/writer.rb:17 | every `</p>` in the padded markup is followed by `"\n\n"` |
| RubyStrings.TrimLinesLines | lib/ghostwriter/writer.rb:39 | the final line trim keeps the number of lines (so adds no trailing newline), and each line loses only its leading and trailing spaces |
| RubyStrings.TrimLinesTrimmed | lib/ghostwriter/writer.rb:39 | no output line starts or ends with a space |
| RubyStrings.TrimLinesIdempotent | lib/ghostwriter/writer.rb:39 | trimming the trimmed text changes nothing |
| RubyStrings.TrimSpacesSlice | lib/ghostwriter/writer.rb:39 | a trimmed line is the line with space runs cut off at both ends |
| RubyStrings.DecimalRoundTrip | lib/ghostwriter/writer.rb:99 | `Integer#to_s` gives digits without a leading zero that read back as the number |
| Dom.Attribute | lib/ghostwriter/writer.rb:86 | `node[name]` is a value the node holds under that name, or nil when it holds none |
| Dom.AttributeIsFirst | lib/ghostwriter/writer.rb:86 | with several attributes of that name, `node[name]` is the value of the first of them |
| Dom.SearchRemoveClears | lib/ghostwriter/writer.rb:19-20 | after `doc.search(css).remove` the same search finds nothing |
| Dom.RemoveKeepsCleared | lib/ghostwriter/writer.rb:19-20 | removing more nodes never brings back an element a search had stopped finding |
| Dom.ReplaceContextOfFound | lib/ghostwriter/writer.rb:88 | `replace(String)` on an element of the document parses the new markup in the context of that element's own parent, never the fallback |
| Dom.Detaches | lib/ghostwriter/writer.rb:153 | `remove` and `replace` take the node object out of the document, whatever the new markup parses to |
| Dom.SearchEachDetaches | lib/ghostwriter/writer.rb:152-154 | after a `search(...).each` loop of `remove` or `replace`, no node object the search found is left |
| Dom.RemoveKeepsOutside | lib/dirt/textify.rb:13 | removing node objects keeps every element that lies below none of them |
| Dom.ApplyFresh | lib/ghostwriter/writer.rb:57 | an edit keeps every node identity below the next fresh one |
| Documents.Document.SearchRemove | lib/ghostwriter/writer.rb:19 | `doc.search(css).remove` removes each found node, and afterwards nothing matches |
| Documents.Document.Each | lib/ghostwriter/writer.rb:152-154 | the `each` loop applies the edit to each found node in order |
| GhostwriterLinks.NormalizeWhitespace | lib/ghostwriter/writer.rb:44-46 | no whitespace but single plain spaces remains, and every non-whitespace character survives in order |
| GhostwriterLinks.NormalizeWhitespaceIdempotent | lib/ghostwriter/writer.rb:44-46 | normalising twice equals normalising once |
| GhostwriterLinks.NormalizeWhitespaceIsCollapse | lib/ghostwriter/writer.rb:44-46 | the writer's normalisation equals the single `gsub(/\s+/, ' ')` of the first generation |
| GhostwriterLinks.LinkMatchesSymmetric | lib/ghostwriter/writer.rb:65-67 | `link_matches` is symmetric |
| GhostwriterLinks.LinkMatchesIgnoresWebScheme | lib/ghostwriter/writer.rb:66 | an address matches itself behind `http://` or `https://` |
| GhostwriterLinks.CanonicalKeepsOtherSchemes | lib/ghostwriter/writer.rb:66 | other schemes are not stripped: only the trailing `/` is chomped |
| GhostwriterLinks.LinkBaseFirstWins | lib/ghostwriter/writer.rb:69-74 | the base comes from the first `<base>` in document order: one earlier in the document decides it, and a part without `<base>` leaves it to the rest |
| GhostwriterLinks.ResolveHrefRaises | lib/ghostwriter/writer.rb:50-55 | resolving raises exactly for a nil href (ArgumentError from `URI(nil)`) or a relative href without a base (NoMethodError), and for nothing else |
| GhostwriterLinks.RelativeHrefUsesWriterBase | lib/ghostwriter/writer.rb:52 | in a document without `<base>`, a relative href becomes the writer's link base followed by the whole href |
| GhostwriterLinks.ContactHref | lib/ghostwriter/writer.rb:54 | an invalid `mailto:`/`tel:` href shows the stripped bare address |
| GhostwriterLinks.AnchorShowsHrefAlone | lib/ghostwriter/writer.rb:57-61 | the anchor shows the href alone exactly when it matches the link text; otherwise the content starts with the link text |
| GhostwriterLinks.AnchorShowsAddressOnce | lib/ghostwriter/writer.rb:57-61 | a link whose text is its own address, with or without a web scheme, shows the address once |
| GhostwriterLinks.AnchorWithoutWebScheme | lib/ghostwriter/writer.rb:57-61 | without web schemes the two sides are compared as written, up to a trailing `/` |
| GhostwriterTables.Max | lib/ghostwriter/writer.rb:131 | `max` is an element of the array and bounds all of them |
| GhostwriterTables.ColumnSizes | lib/ghostwriter/writer.rb:131 | `transpose` raises IndexError exactly for ragged rows; otherwise entry c is the largest c-th cell length of any row, and one row attains it |
| GhostwriterTables.CellMarkup | lib/ghostwriter/writer.rb:144-147 | a rendered cell is a pipe, a space and the content, squeezed (no double space), then only the spaces that left-justify it to width + 2; it loses only spaces, and is exactly width + 2 long when its content fits |
| GhostwriterTables.UnderlineLength | lib/ghostwriter/writer.rb:136 | for N >= 1 columns the underline has length sum(w + 2) + N + 1 |
| GhostwriterTables.UnderlineRoundTrip | lib/ghostwriter/writer.rb:136 | the underline determines the column widths it was drawn for |
| Ghostwriter.HeaderText | lib/ghostwriter/writer.rb:78 | a header is `"-- " + inner + " --\n"` with every run of spaces made exactly one space: it reads `"-- "` … `" --\n"`, has no double space, and keeps all of its non-space content |
| Ghostwriter.HeaderTextKeepsWordSpace | lib/ghostwriter/writer.rb:78 | the header of `a b` is `"-- a b --\n"`: a single space between words is kept |
| Ghostwriter.BulletText | lib/ghostwriter/writer.rb:94 | a bullet item is `"- " + inner + "\n"` with every run of spaces made exactly one space: it reads `"- "` … `"\n"`, has no double space, and keeps its non-space content |
| Ghostwriter.NumberedText | lib/ghostwriter/writer.rb:99 | an ordered item is `"k. " + inner + "\n"` with every run of spaces made exactly one space: it reads `"k. "` … `"\n"`, has no double space, and keeps its non-space content |
| Ghostwriter.ImageText | lib/ghostwriter/writer.rb:88 | the result starts with the alt text, followed by `" ("`; the src (empty for nil) is everything between them and the closing `")"` |
| Ghostwriter.NumberedTextNumber | lib/ghostwriter/writer.rb:98-99 | item i of a list (from 0) starts with a number that reads back as i + 1 |
| Ghostwriter.ImagesWithAltReplaced | lib/ghostwriter/writer.rb:85-89 | every image with alt text is replaced: none of those node objects is left in the document |
| Ghostwriter.ImageWithoutAltKept | lib/ghostwriter/writer.rb:85-89 | an image with nil or empty alt that lies inside no image with alt text is still in the document and found by `search('img')`, whatever the other images are |
| Ghostwriter.ImagesWithoutAltKept | lib/ghostwriter/writer.rb:85-89 | a list in which no image has alt text leaves the document unchanged |
| Ghostwriter.MeasuredCellFits | lib/ghostwriter/writer.rb:124-147 | every measured cell fits its column, so its padded form is exactly the column width + 2 |
| Ghostwriter.RaggedTableRaises | lib/ghostwriter/writer.rb:124-132 | a table with ragged rows makes the table pass raise IndexError |
| Ghostwriter.Cleaned | lib/ghostwriter/writer.rb:17-20 | after the removals the document holds no style and no script element |
| Ghostwriter.TextifyResult | lib/ghostwriter/writer.rb:16-40 | a successful conversion has no line that starts or ends with a space |
| Ghostwriter.AnchorWithoutHrefRaises | lib/ghostwriter/writer.rb:49-52 | an anchor without href makes the anchor pass raise, whatever comes before it |
| Ghostwriter.AnchorWithoutHrefArgumentError | lib/ghostwriter/writer.rb:49-52 | when the earlier anchors resolve without a base, the error is the ArgumentError of `URI(nil)` |
| Ghostwriter.TextifyRaisesForAnchorWithoutHref | lib/ghostwriter/writer.rb:48-63 | a document with an anchor without href makes `textify` raise |
| Ghostwriter.AnchorsWithoutBaseNeeded | lib/ghostwriter/writer.rb:49-62 | anchors whose hrefs are all present and not relative never raise |
| Ghostwriter.Writer.constructor | lib/ghostwriter/writer.rb:7-9 | the writer keeps the link base it is given, "" by default |
| Ghostwriter.Writer.Textify | lib/ghostwriter/writer.rb:16-40 | returns the conversion of the pipeline in source order, with every line trimmed, or the error a pass raised |
| Ghostwriter.Writer.ReplaceAnchors | lib/ghostwriter/writer.rb:48-63 | each anchor gets its resolved content in document order; the first error stops the loop |
| Ghostwriter.Writer.ReplaceAltImages | lib/ghostwriter/writer.rb:85-89 | the image loop: each image with alt text, in order, is replaced by its alt and src |
| Ghostwriter.Writer.ReplaceImages | lib/ghostwriter/writer.rb:82-90 | presentational images are removed, then each image with alt text is replaced |
| Ghostwriter.Writer.ReplaceHeaders | lib/ghostwriter/writer.rb:76-80 | every header gets the decorated content |
| Ghostwriter.Writer.ReplaceLists | lib/ghostwriter/writer.rb:92-106 | `ul li` bullets, then ordered numbering, then every list replaced by its content framed in newlines |
| Ghostwriter.Writer.NumberAll | lib/ghostwriter/writer.rb:97-101 | each ordered list still in the document has its direct items numbered |
| Ghostwriter.Writer.NumberList | lib/ghostwriter/writer.rb:98-100 | the direct items of one list are numbered 1, 2, … in order |
| Ghostwriter.Writer.ReplaceTables | lib/ghostwriter/writer.rb:108-122 | each table is laid out in document order; the first error stops the loop |
| Ghostwriter.Writer.ReplaceTable | lib/ghostwriter/writer.rb:109-121 | one table: measured, rows padded and ended, head underlined, content ended with `"\n"` |
| Ghostwriter.Writer.ReplaceRows | lib/ghostwriter/writer.rb:112-116 | each direct row of `thead`, `tbody` or the table gets padded cells, then a pipe and a newline |
| Ghostwriter.Writer.ReplaceTableNodes | lib/ghostwriter/writer.rb:142-149 | cell i is padded to column i's width + 2; a cell without a column raises NoMethodError |
| Ghostwriter.Writer.AddTableHeaderUnderline | lib/ghostwriter/writer.rb:134-140 | every direct `thead` gets exactly one underline |
| Ghostwriter.SimpleReplaceDetaches | lib/ghostwriter/writer.rb:151-155 | every node the search found is replaced: none of those node objects is left in the document |
| Ghostwriter.Writer.SimpleReplace | lib/ghostwriter/writer.rb:151-155 | each match is replaced by its content followed by the replacement |
| DirtDecoder.Flattened | lib/dirt/textify/decoder.rb:12-13 | no newline, tab or double space remains, and only spaces, newlines and tabs are lost |
| DirtDecoder.FlattenedIsNormalized | lib/dirt/textify/decoder.rb:12-13 | without `\r`, vertical tabs and form feeds the decoder flattens as the writer normalises |
| DirtDecoder.FlattenedKeepsCarriageReturns | lib/dirt/textify/decoder.rb:12 | carriage returns are left untouched |
| DirtDecoder.Prepared | lib/dirt/textify/decoder.rb:15 | padding the paragraphs loses nothing of the flattened markup |
| DirtDecoder.LinkMarkup | lib/dirt/textify/decoder.rb:23 | the link's inner markup and its href (empty for nil) read back from the result, around `" ("` and the closing `")"` |
| DirtDecoder.LinkMarkupAgainstWriter | lib/dirt/textify/decoder.rb:23 | the decoder neither resolves nor matches: a nil href shows as `inner ()` where the writer raises, and an absolute href gives the writer's content exactly when the writer finds no match |
| DirtDecoder.Stripped | lib/dirt/textify/decoder.rb:19-20 | after the removals the document holds no style and no script element |
| DirtDecoder.Decoded | lib/dirt/textify/decoder.rb:42 | the result's lines are the document text's lines with end spaces removed, so none starts or ends with a space |
| DirtDecoder.DecodedTrimIsFinal | lib/dirt/textify/decoder.rb:42 | trimming the result again changes nothing |
| DirtDecoder.Decoder.constructor | lib/dirt/textify/decoder.rb:4-6 | the decoder holds the caller's String object itself, not a copy |
| DirtDecoder.Decoder.Textify | lib/dirt/textify/decoder.rb:9-43 | returns the decoded text of the value the shared string holds when `textify` is called, every line trimmed; the string is not changed |
| DirtTextify.Rewritten | lib/dirt/textify.rb:8-9 | the rewritten string loses nothing but what `gsub(/\s+/, ' ')` collapses |
| DirtTextify.RewrittenIsWriterMarkup | lib/dirt/textify.rb:8-9 | the first generation parses exactly the markup the writer parses |
| DirtTextify.Destyled | lib/dirt/textify.rb:13 | after the removal no style element remains |
| DirtTextify.DestyledKeepsScripts | lib/dirt/textify.rb:13 | only style elements go: a script below no style element is still found by `search('script')` |
| DirtTextify.LinksFromRaises | lib/dirt/textify.rb:15-17 | the anchor loop raises exactly when some anchor has no href, and then TypeError |
| DirtTextify.TextifyRaisesOnMissingHref | lib/dirt/textify.rb:16 | `textify` raises TypeError exactly when a remaining anchor has no href |
| DirtTextify.Textify | lib/dirt/textify.rb:7-32 | the caller's string is rewritten in place, whatever happens later, and the result is the pipeline's text or its error |

## Left out

- Parsing: `Nokogiri::HTML` and the fragment parsing behind `inner_html=` and `replace` are a
  parameter. Error tolerance, entity decoding and which whitespace-only text nodes survive between
  table cells are properties of that parser, and the model does not fix them.
- Serialisation: `inner_html` writes text and attribute values without entity escaping. Comments,
  doctypes and processing instructions are not part of the tree.
- The CSS and XPath engine: only the selectors the converters use are modelled.
  - tag names, and the selector unions `'header, h1, …'` and `'ol, ul'` in document order;
  - the descendant selectors `ul li` and `tr`;
  - the child paths `./li`, `./thead`, `./tr` and `./thead/tr`;
  - `[role=presentation]`, with and without `img`;
  - the two-argument `search('th', 'td')`, read as all `th` followed by all `td`.
- Ruby's URI grammar: `URI()` is a classifier with three answers (invalid, relative, absolute), and
  `URI#to_s` is taken to give back the href as written.
- Ghostwriter.TableStep: a table that an earlier edit took out of the document is skipped. Its rows
  and cells are not edited, and an error it would raise does not happen. In Ruby the detached
  table is still processed, which cannot change the text but can raise. The same holds for detached
  rows (Ghostwriter.RowsFrom) and detached ordered lists (Ghostwriter.NumberLists).
- Ghostwriter.ReplaceAnchors: the link base is read from the current document for each anchor, as
  in the source. `inner_html=` writes the resolved href unescaped, so an anchor's new content can
  itself hold a `<base>` that changes the base of later anchors. The model follows that, and proves
  no lemma that the base stays that of the parsed markup.
- DirtTextify.Textify: `gsub!` on a frozen String raises FrozenError (every string literal in a file
  marked `frozen_string_literal: true` is frozen). `MutableString` models only unfrozen strings, so
  this error path is not modelled.
- The version constant and the `require` lines carry no behaviour.
- Behaviour that none of the three source files implements is not modelled:
  - configurable list and table glyphs;
  - an image with a `data:` src shown as "embedded";
  - one underline per header row rather than per `thead`;
  - a trailing newline added to the output.
