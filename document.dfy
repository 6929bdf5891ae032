/** `markdown_to_html_node`: the document assembler. Every block is
    classified and handed to its converter, and the converted blocks become
    the children of one `div`. The first block whose converter fails makes
    the whole conversion fail with that block's error. */
module Document {
  import opened Wrappers
  import opened Errors
  import opened Strings
  import opened MarkdownEnums
  import opened TextNodes
  import opened HtmlNodes
  import opened LeafNodes
  import opened ParentNodes
  import opened Blocks
  import opened Tokenizer
  import opened Conversion

  /** The converter the block's type selects, as a value. */
  function BlockToNode(block: string): Result<Node, Error> {
    match BlockToBlockType(block)
    case Heading => GetHeaderFromBlock(block)
    case CodeBlock => GetCodeBlockFromBlock(block)
    case Quote => Success(GetBlockquoteFromBlock(block))
    case UnorderedList => ListBlock(block, DashMarker, "ul")
    case OrderedList => ListBlock(block, NumberMarker, "ol")
    case Paragraph => ParagraphBlock(block)
  }

  function BlockNodes(blocks: seq<string>): (rs: seq<Result<Node, Error>>)
    ensures |rs| == |blocks|
    ensures forall i | 0 <= i < |blocks| :: rs[i] == BlockToNode(blocks[i])
  {
    seq(|blocks|, i requires 0 <= i < |blocks| => BlockToNode(blocks[i]))
  }

  /** The `div` over the converted blocks, or the first block's failure. */
  function Assemble(rs: seq<Result<Node, Error>>): Result<Node, Error> {
    var children :- Sequence(rs);
    Success(NewParentNode(Some("div"), Some(children), None))
  }

  /** The `div` holds every block's node in order when every block converts. */
  lemma AssembleChildren(rs: seq<Result<Node, Error>>)
    ensures Assemble(rs).Success? <==> forall i | 0 <= i < |rs| :: rs[i].Success?
    ensures Assemble(rs).Success? ==>
      var n := Assemble(rs).value;
      n == Parent(Some("div"), n.childList, true, None) && |n.childList| == |rs| &&
      forall i | 0 <= i < |rs| :: n.childList[i] == rs[i].value
  {
    SequenceSuccess(rs);
  }

  function MarkdownToHtml(markdown: string): Result<Node, Error> {
    Assemble(BlockNodes(MarkdownBlocks(markdown)))
  }

  /** The `match` on the block type inside the loop. */
  method ConvertBlock(block: string) returns (child: Result<Node, Error>)
    ensures child == BlockToNode(block)
  {
    var blockType := BlockToBlockType(block);
    match blockType {
      case Heading =>
        child := GetHeaderFromBlock(block);
      case CodeBlock =>
        child := GetCodeBlockFromBlock(block);
      case Quote =>
        child := Success(GetBlockquoteFromBlock(block));
      case UnorderedList =>
        child := GetUlFromBlock(block);
      case OrderedList =>
        child := GetOlFromBlock(block);
      case Paragraph =>
        child := GetParaFromBlock(block);
    }
  }

  /** `markdown_to_html_node(markdown)`: the loop over the blocks. */
  method MarkdownToHtmlNode(markdown: string) returns (r: Result<Node, Error>)
    ensures r == MarkdownToHtml(markdown)
  {
    var blocks := MarkdownToBlocks(markdown);
    ghost var results := BlockNodes(blocks);
    var children := [];
    for i := 0 to |blocks|
      invariant Sequence(results[..i]) == Success(children)
    {
      var child := ConvertBlock(blocks[i]);
      assert results[i] == child;
      if child.Failure? {
        SequenceFailsAt(results, i, children);
        return Failure(child.error);
      }
      SequenceAppend(results, i, children);
      children := children + [child.value];
      assert Sequence(results[..i + 1]) == Success(children);
    }
    TakeAll(results);
    return Success(NewParentNode(Some("div"), Some(children), None));
  }

  // ---------------------------------------------------------------------
  // Properties

  /** The conversion succeeds exactly when every block converts, and then
      it is a `div` with one child per block, in block order. */
  lemma OneChildPerBlock(markdown: string)
    ensures MarkdownToHtml(markdown).Success? <==>
      forall i | 0 <= i < |MarkdownBlocks(markdown)| :: BlockToNode(MarkdownBlocks(markdown)[i]).Success?
    ensures MarkdownToHtml(markdown).Success? ==>
      var n := MarkdownToHtml(markdown).value;
      n == Parent(Some("div"), n.childList, true, None) &&
      |n.childList| == |MarkdownBlocks(markdown)| &&
      forall i | 0 <= i < |n.childList| :: n.childList[i] == BlockToNode(MarkdownBlocks(markdown)[i]).value
  {
    AssembleChildren(BlockNodes(MarkdownBlocks(markdown)));
  }

  /** The first block that fails to convert decides the error. */
  lemma FirstFailingBlock(markdown: string, k: nat)
    requires k < |MarkdownBlocks(markdown)|
    requires BlockToNode(MarkdownBlocks(markdown)[k]).Failure?
    requires forall i | 0 <= i < k :: BlockToNode(MarkdownBlocks(markdown)[i]).Success?
    ensures MarkdownToHtml(markdown) == Failure(BlockToNode(MarkdownBlocks(markdown)[k]).error)
  {
    SequenceFirstFailure(BlockNodes(MarkdownBlocks(markdown)), k);
  }

  /** Headings, code blocks and quotes always convert: the classifier's
      test guarantees that the converter's pattern matches. */
  lemma StructuralBlocksConvert(block: string)
    requires BlockToBlockType(block) in {Heading, CodeBlock, Quote}
    ensures BlockToNode(block).Success?
  {
    if BlockToBlockType(block) == Heading {
      HeadingConverts(block);
    } else if BlockToBlockType(block) == CodeBlock {
      CodeBlockConverts(block);
    }
  }

  /** When every result that fails carries one error, so does their sequence. */
  lemma {:induction false} SequenceFailsWith<T>(rs: seq<Result<T, Error>>, e: Error)
    requires forall i | 0 <= i < |rs| :: rs[i].Failure? ==> rs[i].error == e
    ensures Sequence(rs).Failure? ==> Sequence(rs).error == e
  {
    if rs != [] {
      var init := rs[..|rs| - 1];
      assert forall i | 0 <= i < |init| :: init[i] == rs[i];
      SequenceFailsWith(init, e);
    }
  }

  /** A list fails only with an unmatched delimiter in one of its items. */
  lemma ListFailsUnmatched(block: string, m: Marker, tag: string)
    ensures ListBlock(block, m, tag).Failure? ==> ListBlock(block, m, tag).error == UnmatchedDelimiters
  {
    var items := ListItems(FindAll(block, m));
    forall i | 0 <= i < |items| && items[i].Failure?
      ensures items[i].error == UnmatchedDelimiters
    {
      TokensFailUnmatched(FindAll(block, m)[i]);
    }
    SequenceFailsWith(items, UnmatchedDelimiters);
  }

  /** The only way a block fails to convert is an unmatched delimiter in
      a list item or a paragraph. */
  lemma BlockFailsUnmatched(block: string)
    ensures BlockToNode(block).Failure? ==>
      BlockToBlockType(block) in {UnorderedList, OrderedList, Paragraph} &&
      BlockToNode(block).error == UnmatchedDelimiters
  {
    match BlockToBlockType(block)
    case Heading => StructuralBlocksConvert(block);
    case CodeBlock => StructuralBlocksConvert(block);
    case Quote =>
    case UnorderedList => ListFailsUnmatched(block, DashMarker, "ul");
    case OrderedList => ListFailsUnmatched(block, NumberMarker, "ol");
    case Paragraph => TokensFailUnmatched(block);
  }

  /** So the whole conversion fails only with an unmatched delimiter. */
  lemma DocumentFailsUnmatched(markdown: string)
    ensures MarkdownToHtml(markdown).Failure? ==> MarkdownToHtml(markdown).error == UnmatchedDelimiters
  {
    var results := BlockNodes(MarkdownBlocks(markdown));
    forall i | 0 <= i < |results| && results[i].Failure?
      ensures results[i].error == UnmatchedDelimiters
    {
      BlockFailsUnmatched(MarkdownBlocks(markdown)[i]);
    }
    SequenceFailsWith(results, UnmatchedDelimiters);
  }

  /** A paragraph of plain text renders as `<p>text</p>`. */
  lemma PlainParagraphRenders(block: string)
    requires block != ""
    requires !Contains(block, "**") && !Contains(block, "`") && !Contains(block, "_")
    requires Extraction.NoMatch(block, Extraction.ImageSyntax) && Extraction.NoMatch(block, Extraction.LinkSyntax)
    ensures ParagraphBlock(block).Success?
    ensures Render(ParagraphBlock(block).value) == Success("<p>" + block + "</p>")
  {
    PlainTextTokens(block);
    assert SyntaxSplit.Plain(block) == [Span(block, Text)];
    assert Leaves([Span(block, Text)]) == [Leaf(None, Some(block), None)];
    TextParagraph(block);
  }

  lemma TextParagraph(text: string)
    ensures Render(NewParentNode(Some("p"), Some([Leaf(None, Some(text), None)]), None))
      == Success("<p>" + text + "</p>")
  {
    var n := NewParentNode(Some("p"), Some([Leaf(None, Some(text), None)]), None);
    assert Render(n.childList[0]) == Success(text);
    ParentRendersChildrenInOrder(n, [text]);
    assert Concat([text]) == text;
    assert OpenTag("p", None) == "<p>";
    assert CloseTag("p") == "</p>";
  }

  /** An empty block, which the segmenter keeps, is an empty paragraph, and
      an empty paragraph cannot be rendered. */
  lemma EmptyBlockCannotRender()
    ensures BlockToBlockType("") == Paragraph
    ensures BlockToNode("") == Success(NewParentNode(Some("p"), Some([]), None))
    ensures Render(BlockToNode("").value) == Failure(ParentMustHaveChildren)
  {
    EmptyBlockIsParagraph();
    EmptyTokens();
    ChildlessParentFails("p", None);
  }

  lemma EmptyBlockIsParagraph()
    ensures BlockToBlockType("") == Paragraph
  {
    assert Strip("") == "";
    EmptyHasNoMarker(QuoteMarker);
    EmptyHasNoMarker(DashMarker);
    EmptyHasNoMarker(NumberMarker);
  }

  lemma EmptyHasNoMarker(m: Marker)
    ensures |Lines("")| == 1 && FindAll("", m) == []
  {
    SplitSingle("", "\n");
    assert Lines("") == [""];
    assert FirstMarker("", m).None?;
    assert [""][1..] == [];
  }
}
