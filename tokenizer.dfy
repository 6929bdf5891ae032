/** `text_to_textnodes`: the inline tokenizer. One plain span holding the
    whole text goes through the bold, code and italic delimiter passes, then
    the image pass, then the link pass. */
module Tokenizer {
  import opened Wrappers
  import opened Errors
  import opened Strings
  import opened MarkdownEnums
  import opened TextNodes
  import opened Extraction
  import opened Delimiters
  import opened SyntaxSplit

  /** The three delimiter passes, in the order the tokenizer runs them. */
  function DelimiterPasses(text: string): Result<seq<TextNode>, Error> {
    var boldNodes :- DelimiterPass([Span(text, Text)], "**", Bold);
    var codeNodes :- DelimiterPass(boldNodes, "`", Code);
    DelimiterPass(codeNodes, "_", Italic)
  }

  /** The spans of a text, or the error a delimiter pass raises. */
  function Tokens(text: string): Result<seq<TextNode>, Error> {
    var italicNodes :- DelimiterPasses(text);
    Success(SyntaxPass(SyntaxPass(italicNodes, ImageSyntax), LinkSyntax))
  }

  /** `text_to_textnodes(text)`. */
  method TextToTextNodes(text: string) returns (r: Result<seq<TextNode>, Error>)
    ensures r == Tokens(text)
  {
    var node := Span(text, Text);
    var boldNodes :- SplitNodesDelimiter([node], "**", Bold);
    var codeNodes :- SplitNodesDelimiter(boldNodes, "`", Code);
    var italicNodes :- SplitNodesDelimiter(codeNodes, "_", Italic);
    var imageNodes := SplitNodesImage(italicNodes);
    var newNodes := SplitNodesLink(imageNodes);
    return Success(newNodes);
  }

  // ---------------------------------------------------------------------
  // Properties

  /** A delimiter pass over one plain span without the delimiter keeps it. */
  lemma SinglePassUnchanged(text: string, delimiter: string, textType: TextType)
    requires |delimiter| > 0 && !Contains(text, delimiter)
    ensures DelimiterPass([Span(text, Text)], delimiter, textType) == Success([Span(text, Text)])
  {
    NoDelimiterUnchanged(text, delimiter, textType);
    Delimiters.PassLast([Span(text, Text)], delimiter, textType);
    assert [Span(text, Text)][..0] == [];
    assert DelimiterPass([], delimiter, textType) == Success([]);
    var last := DelimitNode([Span(text, Text)][0], delimiter, textType);
    assert [] + last.value == [Span(text, Text)];
  }

  /** Text without any delimiter leaves the delimiter passes as one plain span. */
  lemma NoDelimitersUnchanged(text: string)
    requires !Contains(text, "**") && !Contains(text, "`") && !Contains(text, "_")
    ensures DelimiterPasses(text) == Success([Span(text, Text)])
  {
    SinglePassUnchanged(text, "**", Bold);
    SinglePassUnchanged(text, "`", Code);
    SinglePassUnchanged(text, "_", Italic);
  }

  /** Text with no markup at all is one plain span, and the empty text has no spans. */
  lemma PlainTextTokens(text: string)
    requires !Contains(text, "**") && !Contains(text, "`") && !Contains(text, "_")
    requires NoMatch(text, ImageSyntax) && NoMatch(text, LinkSyntax)
    ensures Tokens(text) == Success(Plain(text))
  {
    NoDelimitersUnchanged(text);
    NoMatchPass(text, ImageSyntax);
    NoMatchPass(text, LinkSyntax);
    if text == "" {
      assert SyntaxPass([], LinkSyntax) == [];
    }
  }

  /** A pass over one plain span with no match in it leaves its plain span. */
  lemma NoMatchPass(text: string, k: Syntax)
    requires NoMatch(text, k)
    ensures SyntaxPass([Span(text, Text)], k) == Plain(text)
  {
    SyntaxSplit.PassLast([Span(text, Text)], k);
    NoCutPlain(text, k);
    assert SyntaxPass([], k) == [];
  }

  /** The empty text has no spans. */
  lemma EmptyTokens()
    ensures Tokens("") == Success([])
  {
    assert !Contains("", "**") && !Contains("", "`") && !Contains("", "_");
    EmptyNoMatch(ImageSyntax);
    EmptyNoMatch(LinkSyntax);
    PlainTextTokens("");
  }

  lemma EmptyNoMatch(k: Syntax)
    ensures NoMatch("", k)
  {
  }

  /** Without bold or code markers, an odd number of underscores is an
      unmatched italic delimiter. */
  lemma OddUnderscoresFail(text: string)
    requires !Contains(text, "**") && !Contains(text, "`")
    requires Count(text, "_") % 2 == 1
    ensures Tokens(text) == Failure(UnmatchedDelimiters)
  {
    SinglePassUnchanged(text, "**", Bold);
    SinglePassUnchanged(text, "`", Code);
    UnmatchedIffOddCount(Span(text, Text), "_", Italic);
    Delimiters.PassLast([Span(text, Text)], "_", Italic);
    assert [Span(text, Text)][..0] == [];
    assert DelimiterPass([], "_", Italic) == Success([]);
  }

  /** Tokenizing fails exactly when a delimiter pass fails. */
  lemma TokensFailIffDelimiterFails(text: string)
    ensures Tokens(text).Failure? <==> DelimiterPasses(text).Failure?
    ensures Tokens(text).Failure? ==> Tokens(text).error == DelimiterPasses(text).error
  {
  }

  /** The link pass only ever sees text without images, so it cuts every
      plain span exactly at its link matches. */
  lemma LinkPassCutsAtMatches(nodes: seq<TextNode>)
    ensures forall i | 0 <= i < |SyntaxPass(nodes, ImageSyntax)| ::
      SyntaxPass(nodes, ImageSyntax)[i].textType == Text ==>
      SplitText(SyntaxPass(nodes, ImageSyntax)[i].text, LinkSyntax)
        == MatchSplit(SyntaxPass(nodes, ImageSyntax)[i].text, LinkSyntax)
  {
    var images := SyntaxPass(nodes, ImageSyntax);
    SyntaxPassSpans(nodes, ImageSyntax);
    forall i | 0 <= i < |images| && images[i].textType == Text
      ensures SplitText(images[i].text, LinkSyntax) == MatchSplit(images[i].text, LinkSyntax)
    {
      LinkSplitIsMatchSplit(images[i].text);
    }
  }

  /** After tokenizing, no plain span is empty or still holds a link. */
  lemma TokensPlainSpans(text: string)
    requires Tokens(text).Success?
    ensures forall i | 0 <= i < |Tokens(text).value| ::
      Tokens(text).value[i].textType == Text ==>
      (Tokens(text).value[i].text != "" && NoMatch(Tokens(text).value[i].text, LinkSyntax))
  {
    var images := SyntaxPass(DelimiterPasses(text).value, ImageSyntax);
    SyntaxPassSpans(images, LinkSyntax);
  }

  /** The only error tokenizing raises is "unmatched delimiters". */
  lemma TokensFailUnmatched(text: string)
    ensures Tokens(text).Failure? ==> Tokens(text).error == UnmatchedDelimiters
  {
    PassFailsUnmatched([Span(text, Text)], "**", Bold);
    var boldNodes := DelimiterPass([Span(text, Text)], "**", Bold);
    if boldNodes.Success? {
      PassFailsUnmatched(boldNodes.value, "`", Code);
      var codeNodes := DelimiterPass(boldNodes.value, "`", Code);
      if codeNodes.Success? {
        PassFailsUnmatched(codeNodes.value, "_", Italic);
      }
    }
  }
}
