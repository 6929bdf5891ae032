/** The block converters of the markdown converter: each kind of block
    becomes one HTML node, and each inline span becomes one leaf. */
module Conversion {
  import opened Wrappers
  import opened Errors
  import opened Strings
  import opened MarkdownEnums
  import opened TextNodes
  import opened HtmlNodes
  import opened LeafNodes
  import opened Blocks
  import opened Tokenizer

  // ---------------------------------------------------------------------
  // Failing at the first failure

  /** The values of some results in order, or the first failure among them. */
  function Sequence<T>(rs: seq<Result<T, Error>>): Result<seq<T>, Error> {
    if rs == [] then Success([])
    else
      var init :- Sequence(rs[..|rs| - 1]);
      var last :- rs[|rs| - 1];
      Success(init + [last])
  }

  /** Every result succeeds exactly when the whole does, and then the whole
      holds their values in order. */
  lemma {:induction false} SequenceSuccess<T>(rs: seq<Result<T, Error>>)
    ensures Sequence(rs).Success? <==> forall i | 0 <= i < |rs| :: rs[i].Success?
    ensures Sequence(rs).Success? ==>
      |Sequence(rs).value| == |rs| && forall i | 0 <= i < |rs| :: Sequence(rs).value[i] == rs[i].value
  {
    if rs != [] {
      var init := rs[..|rs| - 1];
      SequenceSuccess(init);
      assert forall i | 0 <= i < |init| :: init[i] == rs[i];
    }
  }

  /** The first failure is the failure of the whole. */
  lemma {:induction false} SequenceFirstFailure<T>(rs: seq<Result<T, Error>>, k: nat)
    requires k < |rs| && rs[k].Failure?
    requires forall i | 0 <= i < k :: rs[i].Success?
    ensures Sequence(rs) == Failure(rs[k].error)
    decreases |rs|
  {
    var init := rs[..|rs| - 1];
    if k < |rs| - 1 {
      assert init[k] == rs[k];
      SequenceFirstFailure(init, k);
    } else {
      SequenceSuccess(init);
      assert forall i | 0 <= i < |init| :: init[i] == rs[i];
    }
  }

  /** One more result after a prefix. */
  lemma SequenceStep<T>(rs: seq<Result<T, Error>>, i: nat)
    requires i < |rs|
    ensures Sequence(rs[..i + 1]) ==
      (if Sequence(rs[..i]).Failure? then Failure(Sequence(rs[..i]).error)
       else if rs[i].Failure? then Failure(rs[i].error)
       else Success(Sequence(rs[..i]).value + [rs[i].value]))
  {
    assert rs[..i + 1][..i] == rs[..i];
  }

  /** A prefix that succeeds, then one more result that succeeds. */
  lemma SequenceAppend<T>(rs: seq<Result<T, Error>>, i: nat, values: seq<T>)
    requires i < |rs| && Sequence(rs[..i]) == Success(values) && rs[i].Success?
    ensures Sequence(rs[..i + 1]) == Success(values + [rs[i].value])
  {
    SequenceStep(rs, i);
  }

  /** A prefix that succeeds, then a result that fails: the whole fails with it. */
  lemma SequenceFailsAt<T>(rs: seq<Result<T, Error>>, i: nat, values: seq<T>)
    requires i < |rs| && Sequence(rs[..i]) == Success(values) && rs[i].Failure?
    ensures Sequence(rs) == Failure(rs[i].error)
  {
    SequenceStep(rs, i);
    SequencePrefixFailure(rs, i + 1);
  }

  /** A failing prefix is the failure of the whole. */
  lemma {:induction false} SequencePrefixFailure<T>(rs: seq<Result<T, Error>>, k: nat)
    requires k <= |rs| && Sequence(rs[..k]).Failure?
    ensures Sequence(rs) == Sequence(rs[..k])
    decreases |rs| - k
  {
    if k == |rs| {
      assert rs[..k] == rs;
    } else {
      SequenceStep(rs, k);
      SequencePrefixFailure(rs, k + 1);
    }
  }

  // ---------------------------------------------------------------------
  // text_node_to_html_node

  /** A URL as an f-string writes it: a missing URL becomes the text `None`. */
  function UrlText(url: Option<string>): string {
    match url
    case None => "None"
    case Some(u) => u
  }

  /** Text becomes an untagged leaf; bold, italic and code a leaf tagged
      `b`, `i` and `code`; a link an `a` leaf with an `href`; an image an
      empty `img` leaf with `src` and `alt`. */
  function TextNodeToHtmlNode(n: TextNode): (r: Node)
    ensures r.Leaf? && (r.tag == None <==> n.textType == Text)
    ensures r.value == Some(if n.textType == Image then "" else n.text)
    ensures r.props.Some? <==> n.textType == Link || n.textType == Image
  {
    match n.textType
    case Text => NewLeafNode(None, Some(n.text), None)
    case Bold => NewLeafNode(Some("b"), Some(n.text), None)
    case Italic => NewLeafNode(Some("i"), Some(n.text), None)
    case Code => NewLeafNode(Some("code"), Some(n.text), None)
    case Link => NewLeafNode(Some("a"), Some(n.text), Some([("href", UrlText(n.url))]))
    case Image => NewLeafNode(Some("img"), Some(""), Some([("src", UrlText(n.url)), ("alt", n.text)]))
  }

  /** The HTML each kind of span is meant to render as. Text is written
      verbatim, without escaping; the image's attributes come in key order,
      `alt` before `src`. */
  function SpanHtml(n: TextNode): string {
    match n.textType
    case Text => n.text
    case Bold => "<b>" + n.text + "</b>"
    case Italic => "<i>" + n.text + "</i>"
    case Code => "<code>" + n.text + "</code>"
    case Link => "<a" + Attr("href", UrlText(n.url)) + ">" + n.text + "</a>"
    case Image => "<img" + Attr("alt", n.text) + Attr("src", UrlText(n.url)) + ">" + "</img>"
  }

  /** Every span's leaf renders, and renders as the span's HTML. */
  lemma LeafRendersSpan(n: TextNode)
    ensures LeafToHtml(TextNodeToHtmlNode(n)) == Success(SpanHtml(n))
  {
    var h := TextNodeToHtmlNode(n);
    match n.textType
    case Link =>
      LinkHtml(n.text, UrlText(n.url));
    case Image =>
      ImageHtml(n.text, UrlText(n.url));
    case Text =>
    case Bold =>
      assert OpenTag("b", None) == "<b>" && CloseTag("b") == "</b>";
    case Italic =>
      assert OpenTag("i", None) == "<i>" && CloseTag("i") == "</i>";
    case Code =>
      assert OpenTag("code", None) == "<code>" && CloseTag("code") == "</code>";
  }

  lemma LinkHtml(text: string, url: string)
    ensures LeafToHtml(Leaf(Some("a"), Some(text), Some([("href", url)])))
      == Success("<a" + Attr("href", url) + ">" + text + "</a>")
  {
    var ps: Props := [("href", url)];
    LookupUnique(ps, "href", url);
    assert Attributes(ps, ["href"]) == Attr("href", url) by {
      assert ["href"][..0] == [];
    }
    PropsInKeyOrder(ps, ["href"]);
    assert PropsString(Some(ps)) == Attr("href", url);
    assert OpenTag("a", Some(ps)) == "<a" + Attr("href", url) + ">";
    var leaf := Leaf(Some("a"), Some(text), Some(ps));
    assert LeafToHtml(leaf) == Success(OpenTag("a", Some(ps)) + text + CloseTag("a"));
    assert CloseTag("a") == "</a>";
  }

  lemma ImageHtml(text: string, url: string)
    ensures LeafToHtml(Leaf(Some("img"), Some(""), Some([("src", url), ("alt", text)])))
      == Success("<img" + Attr("alt", text) + Attr("src", url) + ">" + "</img>")
  {
    var ps: Props := [("src", url), ("alt", text)];
    ImageOpenTag(text, url);
    var leaf := Leaf(Some("img"), Some(""), Some(ps));
    assert LeafToHtml(leaf) == Success(OpenTag("img", Some(ps)) + "" + CloseTag("img"));
    assert CloseTag("img") == "</img>";
    assert OpenTag("img", Some(ps)) + "" == OpenTag("img", Some(ps));
  }

  lemma ImageOpenTag(text: string, url: string)
    ensures OpenTag("img", Some([("src", url), ("alt", text)])) == "<img" + Attr("alt", text) + Attr("src", url) + ">"
  {
    ImageAttributes(text, url);
  }

  /** An image's attributes come in key order. */
  lemma ImageAttributes(text: string, url: string)
    ensures PropsString(Some([("src", url), ("alt", text)])) == Attr("alt", text) + Attr("src", url)
  {
    var ps: Props := [("src", url), ("alt", text)];
    ImageAttributeList(ps, text, url);
    assert LexLess("alt", "src");
    PropsInKeyOrder(ps, ["alt", "src"]);
  }

  lemma ImageAttributeList(ps: Props, text: string, url: string)
    requires ps == [("src", url), ("alt", text)]
    ensures Attributes(ps, ["alt", "src"]) == Attr("alt", text) + Attr("src", url)
  {
    LookupUnique(ps, "src", url);
    LookupUnique(ps, "alt", text);
    assert Attributes(ps, ["alt"]) == Attr("alt", text) by {
      assert ["alt"][..0] == [];
      assert Attributes(ps, []) == "";
    }
    assert ["alt", "src"][..1] == ["alt"];
  }

  /** The leaves of some spans, one per span, in order. */
  function Leaves(nodes: seq<TextNode>): (ls: seq<Node>)
    ensures |ls| == |nodes|
    ensures forall i | 0 <= i < |nodes| :: ls[i] == TextNodeToHtmlNode(nodes[i])
  {
    seq(|nodes|, i requires 0 <= i < |nodes| => TextNodeToHtmlNode(nodes[i]))
  }

  /** The inner loop of the list and paragraph converters. */
  method ToLeafNodes(textNodes: seq<TextNode>) returns (leafNodes: seq<Node>)
    ensures leafNodes == Leaves(textNodes)
  {
    leafNodes := [];
    for i := 0 to |textNodes|
      invariant leafNodes == Leaves(textNodes[..i])
    {
      leafNodes := leafNodes + [TextNodeToHtmlNode(textNodes[i])];
    }
    TakeAll(textNodes);
  }

  /** The leaves of the spans of a text, or the tokenizer's error. */
  function InlineChildren(text: string): Result<seq<Node>, Error> {
    var textNodes :- Tokens(text);
    Success(Leaves(textNodes))
  }

  // ---------------------------------------------------------------------
  // get_header_from_block: ^(#{1,6}) +(.*)$ without MULTILINE

  /** Where the heading text starts: after the hashes and all the spaces. */
  function HeaderStart(block: string): (k: nat)
    ensures k <= |block|
  {
    var n := HashRun(block);
    n + SpaceRun(block[n..])
  }

  /** The pattern matches: one to six hashes, at least one space, and the
      rest of a line. The greedy ` +` takes every space, and `.*` then takes
      all the rest. */
  predicate HeaderMatches(block: string) {
    var n := HashRun(block);
    1 <= n <= 6 && n < |block| && block[n] == ' ' && RestOfLine(block[HeaderStart(block)..])
  }

  /** `h1` to `h6`. */
  function HeaderTag(n: nat): string
    requires 1 <= n <= 6
  {
    "h" + [('0' as int + n) as char]
  }

  /** The heading text: the rest of the line after the spaces. */
  function HeaderText(block: string): string {
    LineText(block[HeaderStart(block)..])
  }

  /** `get_header_from_block(block)`: a leaf tagged by the number of hashes
      and holding the heading text, or "No header detected". */
  function GetHeaderFromBlock(block: string): (r: Result<Node, Error>)
    ensures r.Failure? <==> !HeaderMatches(block)
    ensures r.Failure? ==> r.error == NoHeaderDetected
  {
    if !HeaderMatches(block) then Failure(NoHeaderDetected)
    else Success(NewLeafNode(Some(HeaderTag(HashRun(block))), Some(HeaderText(block)), None))
  }

  /** A block the classifier takes for a heading always converts. */
  lemma HeadingConverts(block: string)
    requires IsHeader(block)
    ensures HeaderMatches(block)
  {
    var n := HashRun(block);
    var k := HeaderStart(block);
    assert k >= n + 1 by {
      assert block[n..][0] == ' ';
    }
    forall i | 0 <= i < |block[k..]| && block[k..][i] == '\n' ensures i == |block[k..]| - 1 {
      assert block[k..][i] == block[n + 1..][i + k - n - 1];
    }
  }

  /** Where the parts of `#…#   text` lie: the hashes, the spaces, then the
      text. */
  lemma HeaderParts(n: nat, k: nat, text: string)
    requires 1 <= n <= 6 && k >= 1
    requires text == "" || text[0] != ' '
    ensures HashRun(Hashes(n) + Spaces(k) + text) == n
    ensures (Hashes(n) + Spaces(k) + text)[n] == ' '
    ensures HeaderStart(Hashes(n) + Spaces(k) + text) == n + k
    ensures (Hashes(n) + Spaces(k) + text)[n + k..] == text
  {
    var b := Hashes(n) + Spaces(k) + text;
    var rest := Spaces(k) + text;
    AppendAssoc(Hashes(n), Spaces(k), text);
    RunPrefix('#', n, rest);
    assert rest[0] == ' ';
    assert HashRun(rest) == 0;
    assert b[n..] == rest;
    RunPrefix(' ', k, text);
    assert SpaceRun(text) == 0;
    assert rest[k..] == text;
    assert b[n + k..] == text;
  }

  /** Hashes, one or more spaces and a line of text convert back to the
      level and the text: ` +` takes every space. */
  lemma HeaderRoundTrip(n: nat, k: nat, text: string)
    requires 1 <= n <= 6 && k >= 1
    requires forall i | 0 <= i < |text| :: text[i] != '\n'
    requires text == "" || text[0] != ' '
    ensures GetHeaderFromBlock(Hashes(n) + Spaces(k) + text) == Success(Leaf(Some(HeaderTag(n)), Some(text), None))
  {
    HeaderParts(n, k, text);
    assert LineText(text) == text;
  }

  /** Only level-1 headings are titles: `h1` is the tag of one hash alone. */
  lemma HeaderTagLevel(n: nat)
    requires 1 <= n <= 6
    ensures HeaderTag(n) == "h1" <==> n == 1
  {
    if HeaderTag(n) == "h1" {
      assert HeaderTag(n)[1] == '1';
    }
  }

  // ---------------------------------------------------------------------
  // extract_title

  /** `extract_title(markdown)`: the text of a level-1 heading. A document
      that is no heading is "Not a header"; another level or an empty text
      is "Invalid title". */
  function ExtractTitle(text: string): (r: Result<string, Error>)
    ensures !IsHeader(text) ==> r == Failure(NotAHeader)
  {
    if !IsHeader(text) then Failure(NotAHeader)
    else
      var header :- GetHeaderFromBlock(text);
      if header.tag == Some("h1") && header.value.Some? && header.value.value != "" then
        Success(header.value.value)
      else Failure(InvalidTitle)
  }

  /** A heading is a title exactly when it has one hash and some text, and
      the title is the heading text. */
  lemma TitleOfHeading(text: string)
    requires IsHeader(text)
    ensures ExtractTitle(text).Success? <==> HashRun(text) == 1 && HeaderText(text) != ""
    ensures ExtractTitle(text).Success? ==> ExtractTitle(text).value == HeaderText(text)
    ensures ExtractTitle(text).Failure? ==> ExtractTitle(text).error == InvalidTitle
  {
    HeadingConverts(text);
    HeaderTagLevel(HashRun(text));
  }

  /** `# title` yields the title. */
  lemma TitleRoundTrip(title: string)
    requires title != "" && title[0] != ' '
    requires forall i | 0 <= i < |title| :: title[i] != '\n'
    ensures ExtractTitle("# " + title) == Success(title)
  {
    assert "# " + title == Hashes(1) + Spaces(1) + title;
    assert HeaderTag(1) == "h1";
    HeaderRoundTrip(1, 1, title);
    HeaderShape(1, title);
  }

  /** A second-level heading is no title. */
  lemma SubheadingIsNoTitle(title: string)
    requires forall i | 0 <= i < |title| :: title[i] != '\n'
    ensures ExtractTitle("## " + title) == Failure(InvalidTitle)
  {
    assert "## " + title == Hashes(2) + " " + title;
    HeaderShape(2, title);
    TitleOfHeading("## " + title);
    RunPrefix('#', 2, " " + title);
  }

  // ---------------------------------------------------------------------
  // get_codeblock_from_block: ```\n(.*)``` with DOTALL

  /** An opening fence with its newline at `p`, and three backticks at `q`
      after it. */
  predicate FenceAt(block: string, p: int, q: int) {
    OccursAt(block, "```\n", p) && p + 4 <= q && OccursAt(block, "```", q)
  }

  /** Where the match starts and where its group ends: the first opening
      fence, and, since `(.*)` is greedy, the last backticks after it. */
  function CodeFences(block: string): (m: Option<(nat, nat)>)
    ensures m.None? <==> forall p, q :: !FenceAt(block, p, q)
    ensures m.Some? ==> FenceAt(block, m.value.0, m.value.1)
    ensures m.Some? ==> forall p | 0 <= p < m.value.0 :: !OccursAt(block, "```\n", p)
    ensures m.Some? ==> forall q | m.value.1 < q :: !OccursAt(block, "```", q)
  {
    match IndexOf(block, "```\n")
    case None => None
    case Some(p) =>
      match LastIndexFrom(block, "```", p + 4)
      case None =>
        assert forall p2, q | FenceAt(block, p2, q) :: p <= p2 && p + 4 <= q;
        None
      case Some(q) =>
        assert FenceAt(block, p, q);
        Some((p, q))
  }

  /** The group of the match: the code between the fences. */
  function CodeContent(block: string): Option<string> {
    match CodeFences(block)
    case None => None
    case Some((p, q)) => Some(block[p + 4..q])
  }

  /** `get_codeblock_from_block(block)`: a `pre` parent around one `code`
      leaf holding the code. Without a match the Python code fails on an
      empty match list. */
  function GetCodeBlockFromBlock(block: string): (r: Result<Node, Error>)
    ensures r.Failure? <==> CodeContent(block).None?
    ensures r.Failure? ==> r.error == NoCodeMatch
  {
    match CodeContent(block)
    case None => Failure(NoCodeMatch)
    case Some(code) =>
      Success(NewParentNode(Some("pre"), Some([NewLeafNode(Some("code"), Some(code), None)]), None))
  }

  /** A block the classifier takes for code always converts. */
  lemma CodeBlockConverts(block: string)
    requires IsCodeBlock(block)
    ensures CodeContent(block).Some?
  {
    var i, j :| 0 <= i && i + 4 < j <= |block| &&
      OccursAt(block, "```\n", i) && block[j - 1] == '\n' && OccursAt(block, "```", j);
    assert FenceAt(block, i, j);
  }

  /** Fences around any code give that code back, whatever it holds. */
  lemma CodeRoundTrip(code: string)
    ensures CodeContent("```\n" + code + "```") == Some(code)
  {
    var b := "```\n" + code + "```";
    var q := |code| + 4;
    assert OccursAt(b, "```\n", 0) by { assert b[..4] == "```\n"; }
    assert OccursAt(b, "```", q) by { assert b[q..q + 3] == "```"; }
    assert FenceAt(b, 0, q);
    var m := CodeFences(b).value;
    assert m.0 == 0;
    assert m.1 == q;
    assert b[4..q] == code;
  }

  // ---------------------------------------------------------------------
  // get_blockquote_from_block and the list converters

  /** The rest of every line after its first marker. */
  function AfterMarkers(lines: seq<string>, m: Marker): (rs: seq<string>)
    requires forall i | 0 <= i < |lines| :: HasMarker(lines[i], m)
    ensures |rs| == |lines|
  {
    seq(|lines|, i requires 0 <= i < |lines| && HasMarker(lines[i], m) =>
      lines[i][FirstMarker(lines[i], m).value + Width(m)..])
  }

  /** When every line holds the marker, the search yields the rest of every
      line after its first marker. */
  lemma {:induction false} GroupsPerLine(lines: seq<string>, m: Marker)
    requires forall i | 0 <= i < |lines| :: HasMarker(lines[i], m)
    ensures LineGroups(lines, m) == AfterMarkers(lines, m)
  {
    if lines != [] {
      GroupsPerLine(lines[1..], m);
      var all := AfterMarkers(lines, m);
      SameElements(all[1..], AfterMarkers(lines[1..], m));
      SameElements(all, [all[0]] + all[1..]);
    }
  }

  /** `get_blockquote_from_block(block)`: one `blockquote` leaf holding the
      quoted lines joined by newlines. */
  function GetBlockquoteFromBlock(block: string): (r: Node)
    ensures r.Leaf? && r.tag == Some("blockquote") && r.value.Some? && r.props == None
  {
    NewLeafNode(Some("blockquote"), Some(Join(FindAll(block, QuoteMarker), "\n")), None)
  }

  /** For a block as the segmenter makes it with a marker on every line,
      the marker test holds and the search yields the rest of every line. */
  lemma MarkedLineGroups(block: string, m: Marker)
    requires Trimmed(block)
    requires forall i | 0 <= i < |Lines(block)| :: HasMarker(Lines(block)[i], m)
    ensures EveryLineMarked(block, m)
    ensures FindAll(block, m) == AfterMarkers(Lines(block), m)
  {
    EveryLineMarkedTrimmed(block, m);
    GroupsPerLine(Lines(block), m);
  }

  /** Such a quote holds every line without its `> ` marker. */
  lemma QuoteLines(block: string)
    requires Trimmed(block)
    requires forall i | 0 <= i < |Lines(block)| :: HasMarker(Lines(block)[i], QuoteMarker)
    ensures IsQuoteBlock(block)
    ensures GetBlockquoteFromBlock(block).value == Some(Join(AfterMarkers(Lines(block), QuoteMarker), "\n"))
  {
    MarkedLineGroups(block, QuoteMarker);
  }

  /** One list item: an `li` parent over the leaves of the item's text. */
  function ListItem(text: string): Result<Node, Error> {
    var leafNodes :- InlineChildren(text);
    Success(NewParentNode(Some("li"), Some(leafNodes), None))
  }

  function ListItems(groups: seq<string>): (rs: seq<Result<Node, Error>>)
    ensures |rs| == |groups|
    ensures forall i | 0 <= i < |groups| :: rs[i] == ListItem(groups[i])
  {
    seq(|groups|, i requires 0 <= i < |groups| => ListItem(groups[i]))
  }

  /** `get_ul_from_block` (tag `ul`, marker `- `) and `get_ol_from_block`
      (tag `ol`, marker `\d+\. `): one item per match, or the first item's
      tokenizer error. */
  function ListBlock(block: string, m: Marker, tag: string): Result<Node, Error> {
    var children :- Sequence(ListItems(FindAll(block, m)));
    Success(NewParentNode(Some(tag), Some(children), None))
  }

  /** The loop over the matches shared by the two list converters. */
  method ListFromBlock(block: string, m: Marker, tag: string) returns (r: Result<Node, Error>)
    ensures r == ListBlock(block, m, tag)
  {
    var matches := FindAll(block, m);
    ghost var items := ListItems(matches);
    var children := [];
    for i := 0 to |matches|
      invariant Sequence(items[..i]) == Success(children)
    {
      var textNodes := TextToTextNodes(matches[i]);
      if textNodes.Failure? {
        assert items[i] == Failure(textNodes.error);
        SequenceFailsAt(items, i, children);
        return Failure(textNodes.error);
      }
      var leafNodes := ToLeafNodes(textNodes.value);
      var item := NewParentNode(Some("li"), Some(leafNodes), None);
      assert items[i] == Success(item);
      SequenceAppend(items, i, children);
      children := children + [item];
    }
    TakeAll(items);
    return Success(NewParentNode(Some(tag), Some(children), None));
  }

  /** `get_ul_from_block(block)`. */
  method GetUlFromBlock(block: string) returns (r: Result<Node, Error>)
    ensures r == ListBlock(block, DashMarker, "ul")
  {
    r := ListFromBlock(block, DashMarker, "ul");
  }

  /** `get_ol_from_block(block)`. */
  method GetOlFromBlock(block: string) returns (r: Result<Node, Error>)
    ensures r == ListBlock(block, NumberMarker, "ol")
  {
    r := ListFromBlock(block, NumberMarker, "ol");
  }

  /** A list converts when every item tokenizes, into one `li` per match in
      order; otherwise it fails with the first item's error. */
  lemma ListItemsInOrder(block: string, m: Marker, tag: string)
    ensures ListBlock(block, m, tag).Success? <==>
      forall i | 0 <= i < |FindAll(block, m)| :: Tokens(FindAll(block, m)[i]).Success?
    ensures ListBlock(block, m, tag).Success? ==>
      var n := ListBlock(block, m, tag).value;
      n == Parent(Some(tag), n.childList, true, None) && |n.childList| == |FindAll(block, m)| &&
      forall i | 0 <= i < |n.childList| ::
        n.childList[i] == Parent(Some("li"), Leaves(Tokens(FindAll(block, m)[i]).value), true, None)
  {
    SequenceSuccess(ListItems(FindAll(block, m)));
  }

  // ---------------------------------------------------------------------
  // get_para_from_block

  /** A `p` parent over the leaves of the block's spans. */
  function ParagraphBlock(block: string): Result<Node, Error> {
    var leafNodes :- InlineChildren(block);
    Success(NewParentNode(Some("p"), Some(leafNodes), None))
  }

  /** `get_para_from_block(block)`. */
  method GetParaFromBlock(block: string) returns (r: Result<Node, Error>)
    ensures r == ParagraphBlock(block)
  {
    var textNodes :- TextToTextNodes(block);
    var leafNodes := ToLeafNodes(textNodes);
    return Success(NewParentNode(Some("p"), Some(leafNodes), None));
  }
}
