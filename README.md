# Markdown to HTML conversion, modelled in Dafny

This project models the conversion core of a small static-site generator.
The core turns one markdown document into a tree of HTML nodes and renders
that tree as HTML text. It runs in six stages:

- **Block segmenter** (`blocks.dfy`): `markdown_to_blocks` cuts the
  document at every `"\n\n"` and strips each piece. Empty pieces are kept.
- **Block classifier** (`blocks.dfy`): `block_to_block_type` tries
  heading, code, quote, unordered list and ordered list in that order.
  A block that matches none of them is a paragraph. Each regular expression
  is an explicit scanner for exactly that pattern. `.` never matches a
  newline. The heading test is anchored and has no MULTILINE flag. The
  quote and list tests are unanchored searches that count matching lines.
- **Inline tokenizer**: the delimiter pass `split_nodes_delimiter`
  (`delimiters.dfy`) and the lazy image and link patterns (`extract.dfy`).
  Then come the find, cut and continue loops of `split_nodes_image` and
  `split_nodes_link` (`syntaxsplit.dfy`), and the pipeline
  `text_to_textnodes`, which runs bold, code, italic, image, link
  (`tokenizer.dfy`).
- **Block converters** (`conversion.dfy`): heading, code, quote,
  unordered list, ordered list and paragraph, plus `text_node_to_html_node`
  and `extract_title`.
- **Document assembler** (`document.dfy`): `markdown_to_html_node` puts
  one child per block under a `div`.
- **Node model**: `HTMLNode` with `props_to_html`, which writes the
  attributes in ascending key order (`htmlnode.dfy`), `LeafNode.to_html`
  (`leafnode.dfy`) and `ParentNode.to_html` (`parentnode.dfy`).

Supporting modules:

- `wrappers.dfy` has `Option` and `Result`.
- `errors.dfy` has one error per exception the code raises.
- `enums.dfy` has `TextType`, `BlockType` and the `TextNode` span. Spans
  are compared structurally on text, type and URL.
- `strings.dfy` models Python's `str.strip`, `find`, `split`,
  `split(sep, 1)`, `join` and `count`, and the code-point order that
  `sorted` uses.

Every `raise` becomes the `Failure` branch of a `Result`. Every loop in the
source that builds a list is a method with a `while` or `for` loop. Each
such method is proved equal to a specification function, and the
properties are proved as lemmas about those functions. The three node
classes are one datatype, `Base | Leaf | Parent`. Nodes are never changed
after they are built.

`split_nodes_image` and `split_nodes_link` cut the text at the first
occurrence of the literal `![alt](url)` or `[text](url)` that the regex
found. They do not cut at the match position itself. The model keeps that
behaviour. For images, `ImageLiteralFirst` proves that both positions are
the same. For links this holds only when no image is left in the text, which
is always the case inside `text_to_textnodes` (`LinkPassCutsAtMatches`).
Called on its own with an image present, `split_nodes_link` can cut inside
that image.

## Model

| member | source | states |
|---|---|---|
| `Strings.Split` | src/markdown_conversion.py:87 | `str.split(sep)` gives at least one part, the parts joined by the separator rebuild the input, and no part contains the separator |
| `Strings.SplitLeftmost` | src/markdown_conversion.py:87 | each cut falls at the leftmost non-overlapping occurrence: in a part followed by the separator, the first occurrence starts right after the part (`"a***b".split("**")` is `["a", "*b"]`) |
| `Strings.SplitCount` | src/markdown_conversion.py:259 | splitting gives exactly one more part than there are non-overlapping occurrences of the separator |
| `Strings.SplitOnce` | src/markdown_conversion.py:292 | `str.split(sep, 1)` cuts at the first occurrence: two parts around the separator, with no earlier occurrence, or the whole text when the separator is absent |
| `Strings.StripKeepsMiddle` | src/markdown_conversion.py:90 | `strip` keeps a contiguous middle part of the text and drops only white space on either side |
| `Strings.StripIdempotent` | src/markdown_conversion.py:90 | stripping twice is stripping once |
| `Blocks.MarkdownBlocks` | src/markdown_conversion.py:87-91 | one block per piece of `split('\n\n')`, in order, each block the stripped piece; empty blocks are kept |
| `Blocks.MarkdownToBlocks` | src/markdown_conversion.py:79-91 | the append loop returns exactly those blocks |
| `Blocks.BlockCount` | src/markdown_conversion.py:87-91 | there are as many blocks as occurrences of `"\n\n"`, plus one |
| `Blocks.SingleBlock` | src/markdown_conversion.py:87-91 | a trimmed text without a blank line segments to itself alone |
| `Blocks.IsHeader` | src/markdown_conversion.py:8-10 | a heading is its one to six hashes, a space and the rest of the block; `HeaderShape` gives the converse |
| `Blocks.HeaderShape` | src/markdown_conversion.py:8-10 | one to six hashes, a space and one line of text form a heading |
| `Blocks.SevenHashesNotHeader` | src/markdown_conversion.py:8-10 | seven or more leading hashes are never a heading |
| `Blocks.MultiLineNotHeader` | src/markdown_conversion.py:8-10 | a block with a newline before its last character is never a heading |
| `Blocks.IsCodeBlock` | src/markdown_conversion.py:12-14 | the pattern never matches fewer than 8 characters; `FencedIsCodeBlock` gives the fenced shape it accepts and `CodeBlockConverts` that the converter then finds the code |
| `Blocks.FencedIsCodeBlock` | src/markdown_conversion.py:12-14 | fences around newline-terminated code make a code block, and fences around nothing do not |
| `Blocks.LineGroupsCount` | src/markdown_conversion.py:18-19 | the search yields one match per line exactly when every line holds the marker |
| `Blocks.EveryLineMarkedTrimmed` | src/markdown_conversion.py:16-29 | for a stripped block, the quote and list tests hold exactly when every line holds `> `, `- ` or `digits. ` anywhere in it; the digits are never checked for 1, 2, 3 order |
| `Blocks.IsQuoteBlock` | src/markdown_conversion.py:16-19 | a quote has at least one `> ` match; `EveryLineMarkedTrimmed` states it for every line |
| `Blocks.IsUnorderedList` | src/markdown_conversion.py:21-24 | an unordered list has at least one `- ` match; `EveryLineMarkedTrimmed` states it for every line |
| `Blocks.IsOrderedList` | src/markdown_conversion.py:26-29 | an ordered list has at least one `digits. ` match; `EveryLineMarkedTrimmed` states it for every line |
| `Blocks.BlockToBlockType` | src/markdown_conversion.py:63-77 | each of the six types is returned exactly when its test holds and every earlier test fails |
| `Extraction.FirstMatchFrom` | src/markdown_conversion.py:31-35 | the match the lazy pattern finds: the leftmost start, then the least `](` and `)` positions, with no newline inside the groups |
| `Extraction.FindAllMatches` | src/markdown_conversion.py:31-35 | `re.findall` is empty exactly when the pattern matches nowhere; otherwise it starts with the groups of the first match |
| `Extraction.ExtractMarkdownImages` | src/markdown_conversion.py:31-32 | no image is found exactly when the image pattern matches nowhere |
| `Extraction.ExtractMarkdownLinks` | src/markdown_conversion.py:34-35 | no link is found exactly when the link pattern, whose `[` must not follow `!`, matches nowhere |
| `Extraction.ImageLiteralFirst` | src/markdown_conversion.py:291-292 | the first occurrence of the first image's literal is where that image match starts |
| `Extraction.LinkLiteralFirst` | src/markdown_conversion.py:323-324 | in a text without images, the first occurrence of the first link's literal is where that link match starts |
| `Extraction.SplitAtMatch` | src/markdown_conversion.py:292 | cutting at the literal leaves the text before the match and the text after it |
| `Delimiters.TextTypeFromDelimiter` | src/markdown_conversion.py:238-247 | `**`, backtick and `_` give the bold, code and italic types respectively, each exactly for its delimiter; anything else fails with "unsupported delimiter" |
| `Delimiters.DelimitNode` | src/markdown_conversion.py:255-273 | a typed span passes through; a plain span fails with "unmatched delimiters" exactly when it splits into an even number of segments |
| `Delimiters.SplitNodesDelimiter` | src/markdown_conversion.py:249-275 | the loop over the spans returns the pass's result, stopping at the first failing span |
| `Delimiters.AppendSegments` | src/markdown_conversion.py:262-268 | the toggling loop appends the alternating spans of the segments |
| `Delimiters.UnmatchedIffOddCount` | src/markdown_conversion.py:259-273 | a plain span fails exactly when the delimiter occurs an odd number of times |
| `Delimiters.NoDelimiterUnchanged` | src/markdown_conversion.py:269-271 | a plain span without the delimiter comes out unchanged |
| `Delimiters.AlternateSpans` | src/markdown_conversion.py:264-268 | every span made from segments is non-empty, has no URL, and is plain or of the delimiter's type |
| `Delimiters.AlternateNoEmpty` | src/markdown_conversion.py:262-268 | without empty segments, span i is segment i, plain at even and typed at odd positions, starting with plain |
| `Delimiters.AlternateText` | src/markdown_conversion.py:264-267 | dropping empty segments loses no text |
| `Delimiters.PassText` | src/markdown_conversion.py:249-275 | on success, the span texts concatenated are the input texts with every delimiter removed from the plain spans |
| `Delimiters.PassLacksDelimiter` | src/markdown_conversion.py:259-268 | on success, no plain span of the output still contains the delimiter |
| `Delimiters.TypedPassThrough` | src/markdown_conversion.py:255-256 | spans that are already typed come out unchanged and in order |
| `Delimiters.PassAppend` | src/markdown_conversion.py:252-273 | the pass works span by span: it succeeds on a concatenation exactly when it succeeds on both parts, and the outputs concatenate |
| `Delimiters.PassFailsUnmatched` | src/markdown_conversion.py:272-273 | with a non-empty delimiter the only error is "unmatched delimiters" |
| `SyntaxSplit.Cut` | src/markdown_conversion.py:291-300 | one cut: the text is the part before, the first match's literal and the part after, and the part before holds no match |
| `SyntaxSplit.SplitNodesSyntax` | src/markdown_conversion.py:277-306 | the loop over the spans returns the pass's result |
| `SyntaxSplit.SplitTextInto` | src/markdown_conversion.py:286-304 | the find, cut and continue loop appends the spans of one plain text |
| `SyntaxSplit.AppendCut` | src/markdown_conversion.py:291-300 | one turn of the loop: the plain text before the literal if non-empty, the typed span, and a strictly shorter remainder |
| `SyntaxSplit.SplitNodesImage` | src/markdown_conversion.py:277-306 | `split_nodes_image` is the pass for the image pattern |
| `SyntaxSplit.SplitNodesLink` | src/markdown_conversion.py:308-338 | `split_nodes_link` is the pass for the link pattern |
| `SyntaxSplit.SplitTextMarkup` | src/markdown_conversion.py:286-304 | the plain texts, with each typed span written back as its literal, spell the text that was split |
| `SyntaxSplit.SyntaxPassMarkup` | src/markdown_conversion.py:277-306 | the pass preserves the markdown text of the whole span list exactly |
| `SyntaxSplit.SplitTextSpans` | src/markdown_conversion.py:295-304 | every plain span cut from a text is non-empty and holds no match; every typed span has a URL |
| `SyntaxSplit.SyntaxPassSpans` | src/markdown_conversion.py:280-306 | after the pass, no plain span is empty or still holds a match |
| `SyntaxSplit.SyntaxTypedPassThrough` | src/markdown_conversion.py:282-283 | typed spans are never split again |
| `SyntaxSplit.SyntaxPassAppend` | src/markdown_conversion.py:280-304 | the pass works span by span |
| `SyntaxSplit.ImageSplitIsMatchSplit` | src/markdown_conversion.py:289-301 | the image loop cuts every text exactly at its regex matches |
| `SyntaxSplit.LinkSplitIsMatchSplit` | src/markdown_conversion.py:321-333 | in a text without images, the link loop cuts exactly at its regex matches |
| `SyntaxSplit.ImageSpansExtracted` | src/markdown_conversion.py:287-301 | the image spans made from a text are the images `extract_markdown_images` finds, in order |
| `SyntaxSplit.LinkSpansExtracted` | src/markdown_conversion.py:319-333 | in a text without images, the link spans are the links `extract_markdown_links` finds, in order |
| `Tokenizer.TextToTextNodes` | src/markdown_conversion.py:340-351 | the pipeline runs bold, code, italic, image and link, and fails as soon as a delimiter pass fails |
| `Tokenizer.NoDelimitersUnchanged` | src/markdown_conversion.py:342-345 | text without `**`, backtick or `_` leaves the delimiter passes as one plain span |
| `Tokenizer.PlainTextTokens` | src/markdown_conversion.py:340-351 | text with no markup at all is one plain span, or no span when it is empty |
| `Tokenizer.EmptyTokens` | src/markdown_conversion.py:340-351 | the empty text yields an empty list |
| `Tokenizer.OddUnderscoresFail` | src/markdown_conversion.py:345 | without bold or code markers, an odd number of `_` fails, even inside what would be a link URL |
| `Tokenizer.TokensFailIffDelimiterFails` | src/markdown_conversion.py:343-347 | tokenizing fails exactly when a delimiter pass fails, with the same error |
| `Tokenizer.LinkPassCutsAtMatches` | src/markdown_conversion.py:346-347 | after the image pass, the link pass cuts every plain span exactly at its link matches |
| `Tokenizer.TokensPlainSpans` | src/markdown_conversion.py:346-347 | after tokenizing, no plain span is empty or still holds a link |
| `Tokenizer.TokensFailUnmatched` | src/markdown_conversion.py:340-351 | the only error tokenizing raises is "unmatched delimiters" |
| `Conversion.TextNodeToHtmlNode` | src/markdown_conversion.py:216-236 | every span becomes a leaf, untagged exactly for TEXT, holding the span's text (an empty value for IMAGE), with attributes exactly for LINK and IMAGE; `LeafRendersSpan` gives the HTML |
| `Conversion.LeafRendersSpan` | src/markdown_conversion.py:216-236 | TEXT renders bare, BOLD/ITALIC/CODE inside `b`/`i`/`code`, LINK as `a` with `href`, IMAGE as an empty `img` with `alt` then `src`; nothing is escaped |
| `Conversion.ImageAttributes` | src/markdown_conversion.py:230-234 | an image's attributes are written `alt` before `src`, the reverse of insertion order |
| `Conversion.ToLeafNodes` | src/markdown_conversion.py:176-178 | one leaf per span, in order |
| `Conversion.GetHeaderFromBlock` | src/markdown_conversion.py:132-137 | fails with "No header detected" exactly when the heading pattern with ` +` does not match |
| `Conversion.HeadingConverts` | src/markdown_conversion.py:132-135 | every block the classifier calls a heading matches the converter's pattern |
| `Conversion.HeaderRoundTrip` | src/markdown_conversion.py:132-137 | N hashes, one or more spaces and a line of text give a leaf tagged `h{N}` holding that text: ` +` takes every space |
| `Conversion.HeaderTagLevel` | src/markdown_conversion.py:136 | the tag is `h1` exactly for one hash |
| `Conversion.ExtractTitle` | src/markdown_conversion.py:44-45 | a text that is not a heading fails with "Not a header" |
| `Conversion.TitleOfHeading` | src/markdown_conversion.py:38-43 | a heading is a title exactly when it has one hash and non-empty text; the title is that text; otherwise "Invalid title" |
| `Conversion.TitleRoundTrip` | src/markdown_conversion.py:37-41 | `# ` followed by a non-empty line gives that line as the title |
| `Conversion.SubheadingIsNoTitle` | src/markdown_conversion.py:40-43 | a `## ` heading fails with "Invalid title" |
| `Conversion.CodeFences` | src/markdown_conversion.py:140 | the match starts at the first opening fence and its group ends at the last closing backticks |
| `Conversion.GetCodeBlockFromBlock` | src/markdown_conversion.py:139-143 | fails exactly when there is no fenced match |
| `Conversion.CodeBlockConverts` | src/markdown_conversion.py:139-141 | every block the classifier calls code has that match |
| `Conversion.CodeRoundTrip` | src/markdown_conversion.py:139-143 | fences around any code give back the code verbatim, trailing newline included |
| `Conversion.GroupsPerLine` | src/markdown_conversion.py:146 | when every line holds the marker, the search yields the rest of each line after its first marker |
| `Conversion.GetBlockquoteFromBlock` | src/markdown_conversion.py:145-148 | a `blockquote` leaf with a value and no attributes; `QuoteLines` says the value is each line's text after `> `, joined by newlines |
| `Conversion.QuoteLines` | src/markdown_conversion.py:145-148 | a stripped block with `> ` on every line is a quote, and its leaf holds each line's text after `> `, joined by newlines, untokenized |
| `Conversion.ListFromBlock` | src/markdown_conversion.py:150-172 | the item loop returns the list node or the first item's tokenizer error |
| `Conversion.GetUlFromBlock` | src/markdown_conversion.py:150-160 | `get_ul_from_block` is the list converter with marker `- ` and tag `ul` |
| `Conversion.GetOlFromBlock` | src/markdown_conversion.py:162-172 | `get_ol_from_block` is the list converter with marker `digits. ` and tag `ol` |
| `Conversion.ListItemsInOrder` | src/markdown_conversion.py:150-172 | a list converts exactly when every item tokenizes, into one `li` per matching line in source order, each over the leaves of that line's spans |
| `Conversion.GetParaFromBlock` | src/markdown_conversion.py:174-179 | a `p` over the leaves of the block's spans, or the tokenizer's error |
| `Document.ConvertBlock` | src/markdown_conversion.py:193-210 | the block's type selects its converter |
| `Document.MarkdownToHtmlNode` | src/markdown_conversion.py:181-213 | the block loop returns the `div` or the first block's error |
| `Document.OneChildPerBlock` | src/markdown_conversion.py:189-213 | the conversion succeeds exactly when every block converts, and then it is a `div` with exactly one child per block, in block order |
| `Document.FirstFailingBlock` | src/markdown_conversion.py:191-208 | the first block that fails decides the error; nothing partial is returned |
| `Document.StructuralBlocksConvert` | src/markdown_conversion.py:196-202 | headings, code blocks and quotes always convert |
| `Document.BlockFailsUnmatched` | src/markdown_conversion.py:191-208 | a block fails only as a list or paragraph, and only with "unmatched delimiters" |
| `Document.DocumentFailsUnmatched` | src/markdown_conversion.py:181-213 | the whole conversion fails only with "unmatched delimiters" |
| `Document.PlainParagraphRenders` | src/markdown_conversion.py:174-179 | a non-empty paragraph without markup renders as `<p>text</p>` |
| `Document.EmptyBlockCannotRender` | src/markdown_conversion.py:87-91 | an empty block is kept, becomes a childless `p`, and that `p` cannot be rendered |
| `HtmlNodes.SortedKeys` | src/htmlnode.py:18 | the keys in strictly ascending code-point order, each exactly once |
| `HtmlNodes.PropsHtml` | src/htmlnode.py:14-20 | no dictionary is an error, an empty one gives `None` rather than `""`, and a non-empty one always succeeds with non-empty text (its content is stated by `PropsInKeyOrder`) |
| `HtmlNodes.PropsToHtml` | src/htmlnode.py:14-20 | the loop over the sorted keys returns that result |
| `HtmlNodes.PropsInKeyOrder` | src/htmlnode.py:17-19 | the text is ` key="value"` for every key, in ascending key order |
| `HtmlNodes.PropsOrderIndependent` | src/htmlnode.py:18 | the text depends only on the key/value pairs, never on insertion order |
| `HtmlNodes.TwoPropsInKeyOrder` | src/htmlnode.py:17-19 | two attributes are written in key order whichever was inserted first |
| `HtmlNodes.HrefBeforeTarget` | src/test_htmlnode.py:19-26 | the `href`/`target` dictionary renders `href` first |
| `HtmlNodes.NewHtmlNode` | src/htmlnode.py:2-6 | the constructor stores tag, value, children and props exactly as given |
| `HtmlNodes.NewLeafNode` | src/leafnode.py:4-5 | a leaf stores tag, value and props, and has no children |
| `HtmlNodes.NewParentNode` | src/parentnode.py:4-5 | a parent stores tag, children and props, and has no value |
| `HtmlNodes.BaseToHtml` | src/htmlnode.py:11-12 | the base class always fails with NotImplementedError |
| `LeafNodes.PropsString` | src/leafnode.py:12 | attributes contribute nothing when the dictionary is absent or empty, and the sorted attribute text otherwise |
| `LeafNodes.LeafToHtml` | src/leafnode.py:7-13 | fails exactly when the value is missing; renders the bare value without a tag; otherwise `<tag attrs>value</tag>` with an explicit closing tag and no escaping |
| `LeafNodes.RenderParagraphLeaf` | src/test_leafnode.py:8-10 | `LeafNode("p", "Hello, world!")` renders `<p>Hello, world!</p>` |
| `LeafNodes.RenderLeafWithoutValue` | src/test_leafnode.py:12-15 | a leaf without a value fails with "missing node value" |
| `ParentNodes.RenderAllOutputs` | src/parentnode.py:13-15 | when every child renders, the inner HTML is their outputs concatenated in order |
| `ParentNodes.RenderAllFirstFailure` | src/parentnode.py:14-15 | the first child that fails decides the error |
| `ParentNodes.ParentRendersChildrenInOrder` | src/parentnode.py:13-19 | a tagged parent with children renders its opening tag, every child's HTML in order, and its closing tag |
| `ParentNodes.ParentFailsWithChild` | src/parentnode.py:14-15 | if a child fails, the parent fails with the first failing child's error and produces no output |
| `ParentNodes.ToHtml` | src/parentnode.py:15 | `to_html` dispatches on the node's class and returns the rendering |
| `ParentNodes.ParentToHtml` | src/parentnode.py:7-19 | the guards and the child loop return the parent's rendering |
| `ParentNodes.UntaggedParentFails` | src/parentnode.py:8-9 | a parent whose tag is absent or empty fails with "missing node tag" |
| `ParentNodes.ChildlessParentFails` | src/parentnode.py:10-11 | a parent whose children are absent or empty fails with "parent tag must have children" |

## Left out

- File I/O and printing are not modelled: `get_file_contents`, `generate_page` and `generate_pages_recursive` (src/markdown_conversion.py:93-130), and `src/main.py`. That includes the template substitution and the `.md` to `.html` rename inside them. `generate_page` applies `extract_title` to the first block; the model states `ExtractTitle` on a block.
- `__repr__` and the no-op `HTMLNode.__eq__` are debug output and are not modelled.
- The second `ORDERED_LIST` branch of `block_to_block_type` (src/markdown_conversion.py:73-74) can never be reached and is not modelled.
- The `case _` branches that raise "unexpected block type" and "unknown text type" cannot be reached, because both matches are exhaustive over closed datatypes.
- Nodes are immutable datatype values, not objects. Aliasing and later mutation of a node's fields are not modelled; the source never mutates a node after construction.
- Attribute dictionaries map strings to strings. A link or image whose URL is `None` renders the text `None`, as an f-string would. Other value types are not modelled.
- `\d` matches only the ASCII digits 0 to 9. Python also accepts other Unicode decimal digits.
- `str.strip` uses a fixed white-space set: the ASCII controls TAB to CR and FS to US, the space, and the Unicode spaces Python treats as white space.
- `Conversion.ExtractTitle`: its own contract states only the "Not a header" case; the other cases are stated by `Conversion.TitleOfHeading`.
