/** `split_nodes_image` and `split_nodes_link`: the passes that cut every
    plain span around its images or links. Both work alike: find the first
    match, cut the text at the first occurrence of the match's literal
    `![alt](url)` or `[text](url)`, keep the text before it as a plain span,
    emit the typed span, and go on with the text after it. */
module SyntaxSplit {
  import opened Wrappers
  import opened Strings
  import opened MarkdownEnums
  import opened TextNodes
  import opened Extraction

  /** The kind of span each syntax makes. */
  function SpanType(k: Syntax): TextType {
    if k == ImageSyntax then Image else Link
  }

  /** The typed span made from the groups of a match. */
  function Typed(k: Syntax, g: (string, string)): TextNode {
    TextNode(g.0, SpanType(k), Some(g.1))
  }

  /** A plain span for a text, or nothing when the text is empty. */
  function Plain(text: string): seq<TextNode> {
    if |text| > 0 then [Span(text, Text)] else []
  }

  /** The literal of the first match occurs, so cutting at it gives two
      sections around it. The first section is a prefix of the text before
      the match, and holds no match itself. */
  lemma FirstSections(text: string, k: Syntax)
    requires FindAllMatches(text, k) != []
    ensures |SplitOnce(text, Literal(k, FindAllMatches(text, k)[0]))| == 2
    ensures SplitOnce(text, Literal(k, FindAllMatches(text, k)[0]))[0]
      + Literal(k, FindAllMatches(text, k)[0])
      + SplitOnce(text, Literal(k, FindAllMatches(text, k)[0]))[1] == text
    ensures NoMatch(SplitOnce(text, Literal(k, FindAllMatches(text, k)[0]))[0], k)
  {
    var m := FirstMatch(text, k).value;
    var lit := Literal(k, FindAllMatches(text, k)[0]);
    MatchIsLiteral(text, m, k);
    var sections := SplitOnce(text, lit);
    var n := |sections[0]|;
    assert n <= m.0;
    assert sections[0] == text[..n] by {
      assert text[..n] == (sections[0] + lit + sections[1])[..n];
    }
    HeadHasNoMatch(text, k, n);
  }

  /** No match fits in the text before the first match. */
  lemma HeadHasNoMatch(text: string, k: Syntax, n: nat)
    requires FirstMatch(text, k).Some? && n <= FirstMatch(text, k).value.0
    ensures NoMatch(text[..n], k)
  {
    forall p, q, r ensures !MatchAt(text[..n], p, q, r, k) {
      if MatchAt(text[..n], p, q, r, k) {
        MatchInPrefix(text, n, p, q, r, k);
      }
    }
  }

  /** One cut: the text before the first occurrence of the first match's
      literal, the match's groups, and the text after it. */
  function Cut(text: string, k: Syntax): (c: Option<(string, (string, string), string)>)
    ensures c.None? <==> FindAllMatches(text, k) == []
    ensures c.Some? ==> c.value.0 + Literal(k, c.value.1) + c.value.2 == text
    ensures c.Some? ==> NoMatch(c.value.0, k) && |c.value.2| < |text|
    ensures c.Some? ==> c.value.1 == FindAllMatches(text, k)[0]
    ensures c.Some? ==> |SplitOnce(text, Literal(k, c.value.1))| == 2
    ensures c.Some? ==> c.value.0 == SplitOnce(text, Literal(k, c.value.1))[0]
    ensures c.Some? ==> c.value.2 == SplitOnce(text, Literal(k, c.value.1))[1]
  {
    var matches := FindAllMatches(text, k);
    if matches == [] then None
    else
      FirstSections(text, k);
      var sections := SplitOnce(text, Literal(k, matches[0]));
      Some((sections[0], matches[0], sections[1]))
  }

  /** The spans the inner loop makes from the text of one plain span. */
  function SplitText(text: string, k: Syntax): seq<TextNode>
    decreases |text|
  {
    match Cut(text, k)
    case None => Plain(text)
    case Some((before, g, after)) => Plain(before) + [Typed(k, g)] + SplitText(after, k)
  }

  /** What the pass makes of one span: typed spans are kept. */
  function SplitNode(node: TextNode, k: Syntax): seq<TextNode> {
    if node.textType != Text then [node] else SplitText(node.text, k)
  }

  function SplitAll(nodes: seq<TextNode>, k: Syntax): (out: seq<seq<TextNode>>)
    ensures |out| == |nodes|
    ensures forall i | 0 <= i < |nodes| :: out[i] == SplitNode(nodes[i], k)
  {
    seq(|nodes|, i requires 0 <= i < |nodes| => SplitNode(nodes[i], k))
  }

  function Flatten(parts: seq<seq<TextNode>>): seq<TextNode> {
    if parts == [] then [] else Flatten(parts[..|parts| - 1]) + parts[|parts| - 1]
  }

  /** `split_nodes_image(old_nodes)` or `split_nodes_link(old_nodes)`. */
  function SyntaxPass(nodes: seq<TextNode>, k: Syntax): seq<TextNode> {
    Flatten(SplitAll(nodes, k))
  }

  // ---------------------------------------------------------------------
  // The loops

  /** The loop over the spans, with the inner loop that finds, cuts and
      continues. */
  method SplitNodesSyntax(oldNodes: seq<TextNode>, k: Syntax) returns (newNodes: seq<TextNode>)
    ensures newNodes == SyntaxPass(oldNodes, k)
  {
    newNodes := [];
    var i := 0;
    while i < |oldNodes|
      invariant 0 <= i <= |oldNodes|
      invariant newNodes == SyntaxPass(oldNodes[..i], k)
    {
      var node := oldNodes[i];
      PassStep(oldNodes, i, k);
      if node.textType != Text {
        newNodes := newNodes + [node];
      } else {
        newNodes := SplitTextInto(newNodes, node.text, k);
      }
      i := i + 1;
    }
    assert oldNodes[..i] == oldNodes;
  }

  /** The inner loop: while the remaining text holds a match, cut at the
      first occurrence of its literal. */
  method SplitTextInto(nodes: seq<TextNode>, original: string, k: Syntax) returns (newNodes: seq<TextNode>)
    ensures newNodes == nodes + SplitText(original, k)
  {
    newNodes := nodes;
    var text := original;
    var matches := FindAllMatches(text, k);
    while |matches| > 0
      invariant matches == FindAllMatches(text, k)
      invariant nodes + SplitText(original, k) == newNodes + SplitText(text, k)
      decreases |text|
    {
      var g := matches[0];
      newNodes, text := AppendCut(newNodes, text, k, g);
      matches := FindAllMatches(text, k);
    }
    NoCutPlain(text, k);
    ghost var before := newNodes;
    if |text| > 0 {
      newNodes := newNodes + [Span(text, Text)];
    } else {
      AppendEmpty(before);
    }
    assert newNodes == before + Plain(text);
  }

  /** One turn of the inner loop: the text before the literal, if any, and
      the typed span, then the rest of the text. */
  method AppendCut(nodes: seq<TextNode>, text: string, k: Syntax, g: (string, string))
    returns (newNodes: seq<TextNode>, rest: string)
    requires FindAllMatches(text, k) != [] && g == FindAllMatches(text, k)[0]
    ensures |rest| < |text|
    ensures newNodes + SplitText(rest, k) == nodes + SplitText(text, k)
  {
    var sections := SplitOnce(text, Literal(k, g));
    CutStep(text, k, g, sections);
    newNodes := nodes;
    if |sections[0]| > 0 {
      newNodes := newNodes + [Span(sections[0], Text)];
    } else {
      AppendEmpty(nodes);
    }
    assert newNodes == nodes + Plain(sections[0]);
    newNodes := newNodes + [Typed(k, g)];
    AppendAssoc(nodes, Plain(sections[0]), [Typed(k, g)]);
    CutRegroup(nodes, Plain(sections[0]) + [Typed(k, g)], SplitText(sections[1], k));
    rest := sections[1];
  }

  /** One turn of the inner loop cuts as `SplitText` does. */
  lemma CutStep(text: string, k: Syntax, g: (string, string), sections: seq<string>)
    requires FindAllMatches(text, k) != [] && g == FindAllMatches(text, k)[0]
    requires sections == SplitOnce(text, Literal(k, g))
    ensures |sections| == 2 && |sections[1]| < |text|
    ensures SplitText(text, k) == Plain(sections[0]) + [Typed(k, g)] + SplitText(sections[1], k)
  {
    assert Cut(text, k).value == (sections[0], g, sections[1]);
  }

  /** The inner loop's exit: no match left, so the rest is one plain span. */
  lemma NoCutPlain(text: string, k: Syntax)
    requires FindAllMatches(text, k) == []
    ensures SplitText(text, k) == Plain(text)
  {
  }

  lemma CutRegroup(a: seq<TextNode>, b: seq<TextNode>, c: seq<TextNode>)
    ensures (a + b) + c == a + (b + c)
  {
    AppendAssoc(a, b, c);
  }

  /** `split_nodes_image`. */
  method SplitNodesImage(oldNodes: seq<TextNode>) returns (newNodes: seq<TextNode>)
    ensures newNodes == SyntaxPass(oldNodes, ImageSyntax)
  {
    newNodes := SplitNodesSyntax(oldNodes, ImageSyntax);
  }

  /** `split_nodes_link`. */
  method SplitNodesLink(oldNodes: seq<TextNode>) returns (newNodes: seq<TextNode>)
    ensures newNodes == SyntaxPass(oldNodes, LinkSyntax)
  {
    newNodes := SplitNodesSyntax(oldNodes, LinkSyntax);
  }

  lemma PassStep(nodes: seq<TextNode>, i: nat, k: Syntax)
    requires i < |nodes|
    ensures SyntaxPass(nodes[..i + 1], k) == SyntaxPass(nodes[..i], k) + SplitNode(nodes[i], k)
  {
    var parts := SplitAll(nodes[..i + 1], k);
    assert parts[..i] == SplitAll(nodes[..i], k);
  }

  /** The pass on a non-empty list is the pass on all but its last span,
      followed by what the last span becomes. */
  lemma PassLast(nodes: seq<TextNode>, k: Syntax)
    requires nodes != []
    ensures SyntaxPass(nodes, k) == SyntaxPass(nodes[..|nodes| - 1], k) + SplitNode(nodes[|nodes| - 1], k)
  {
    PassStep(nodes, |nodes| - 1, k);
    assert nodes[..|nodes|] == nodes;
  }

  // ---------------------------------------------------------------------
  // The text is preserved

  /** How a span reads in markdown for this pass: a span of the pass's kind
      as its literal, any other span as its text. */
  function SpanMarkup(n: TextNode, k: Syntax): string {
    if n.textType == SpanType(k) && n.url.Some? then Literal(k, (n.text, n.url.value)) else n.text
  }

  function Markup(ns: seq<TextNode>, k: Syntax): string {
    if ns == [] then "" else Markup(ns[..|ns| - 1], k) + SpanMarkup(ns[|ns| - 1], k)
  }

  lemma {:induction false} MarkupAppend(a: seq<TextNode>, b: seq<TextNode>, k: Syntax)
    ensures Markup(a + b, k) == Markup(a, k) + Markup(b, k)
    decreases |b|
  {
    if b == [] {
      assert a + b == a;
    } else {
      var b' := b[..|b| - 1];
      assert (a + b)[..|a + b| - 1] == a + b';
      MarkupAppend(a, b', k);
      AppendAssoc(Markup(a, k), Markup(b', k), SpanMarkup(b[|b| - 1], k));
    }
  }

  lemma MarkupSingle(n: TextNode, k: Syntax)
    ensures Markup([n], k) == SpanMarkup(n, k)
  {
    assert [n][..0] == [];
  }

  lemma MarkupPlain(text: string, k: Syntax)
    ensures Markup(Plain(text), k) == text
  {
    if |text| > 0 {
      MarkupSingle(Span(text, Text), k);
    }
  }

  /** Writing the spans back as markdown gives the text that was split. */
  lemma {:induction false} SplitTextMarkup(text: string, k: Syntax)
    ensures Markup(SplitText(text, k), k) == text
    decreases |text|
  {
    match Cut(text, k)
    case None =>
      MarkupPlain(text, k);
    case Some((before, g, after)) =>
      SplitTextMarkup(after, k);
      MarkupCut(before, g, SplitText(after, k), k);
  }

  /** One cut written back: the plain text before it, the literal, then the rest. */
  lemma MarkupCut(before: string, g: (string, string), rest: seq<TextNode>, k: Syntax)
    ensures Markup(Plain(before) + [Typed(k, g)] + rest, k) == before + Literal(k, g) + Markup(rest, k)
  {
    MarkupAppend(Plain(before) + [Typed(k, g)], rest, k);
    MarkupAppend(Plain(before), [Typed(k, g)], k);
    MarkupSingle(Typed(k, g), k);
    MarkupPlain(before, k);
  }

  /** The pass preserves the markdown text exactly: the plain texts, with
      every span of the pass's kind written back as its literal, spell the
      input. */
  lemma {:induction false} SyntaxPassMarkup(nodes: seq<TextNode>, k: Syntax)
    ensures Markup(SyntaxPass(nodes, k), k) == Markup(nodes, k)
  {
    if nodes != [] {
      var init, last := nodes[..|nodes| - 1], nodes[|nodes| - 1];
      PassLast(nodes, k);
      SyntaxPassMarkup(init, k);
      MarkupAppend(SyntaxPass(init, k), SplitNode(last, k), k);
      if last.textType == Text {
        SplitTextMarkup(last.text, k);
      } else {
        MarkupSingle(last, k);
      }
    }
  }

  // ---------------------------------------------------------------------
  // The spans made

  /** A span of the pass's output made from plain text: a non-empty plain
      span with no match left in it, or a span of the pass's kind with a URL. */
  ghost predicate Made(n: TextNode, k: Syntax) {
    (n.textType == Text && n.text != "" && NoMatch(n.text, k))
    || (n.textType == SpanType(k) && n.url.Some?)
  }

  /** Every span cut from a text is made this way: no empty plain span, and
      no plain span that still holds a match. */
  lemma {:induction false} SplitTextSpans(text: string, k: Syntax)
    ensures forall i | 0 <= i < |SplitText(text, k)| :: Made(SplitText(text, k)[i], k)
    decreases |text|
  {
    match Cut(text, k)
    case None =>
    case Some((before, g, after)) =>
      SplitTextSpans(after, k);
      MadeCut(before, g, SplitText(after, k), k);
  }

  /** One cut keeps every span made: the plain text before it holds no match. */
  lemma MadeCut(before: string, g: (string, string), rest: seq<TextNode>, k: Syntax)
    requires NoMatch(before, k)
    requires forall i | 0 <= i < |rest| :: Made(rest[i], k)
    ensures forall i | 0 <= i < |Plain(before) + [Typed(k, g)] + rest| :: Made((Plain(before) + [Typed(k, g)] + rest)[i], k)
  {
    AllMadeAppend(Plain(before), [Typed(k, g)], k);
    AllMadeAppend(Plain(before) + [Typed(k, g)], rest, k);
  }

  lemma AllMadeAppend(a: seq<TextNode>, b: seq<TextNode>, k: Syntax)
    requires forall i | 0 <= i < |a| :: Made(a[i], k)
    requires forall i | 0 <= i < |b| :: Made(b[i], k)
    ensures forall i | 0 <= i < |a + b| :: Made((a + b)[i], k)
  {
  }

  /** After the pass every plain span is non-empty and holds no match; the
      typed spans it received are kept. */
  lemma {:induction false} SyntaxPassSpans(nodes: seq<TextNode>, k: Syntax)
    ensures forall i | 0 <= i < |SyntaxPass(nodes, k)| ::
      SyntaxPass(nodes, k)[i].textType == Text ==>
      (SyntaxPass(nodes, k)[i].text != "" && NoMatch(SyntaxPass(nodes, k)[i].text, k))
  {
    if nodes != [] {
      var init, last := nodes[..|nodes| - 1], nodes[|nodes| - 1];
      PassLast(nodes, k);
      SyntaxPassSpans(init, k);
      if last.textType == Text {
        SplitTextSpans(last.text, k);
      }
    }
  }

  /** Typed spans are never split again. */
  lemma {:induction false} SyntaxTypedPassThrough(nodes: seq<TextNode>, k: Syntax)
    requires forall i | 0 <= i < |nodes| :: nodes[i].textType != Text
    ensures SyntaxPass(nodes, k) == nodes
  {
    if nodes != [] {
      PassLast(nodes, k);
      SyntaxTypedPassThrough(nodes[..|nodes| - 1], k);
      assert nodes[..|nodes| - 1] + [nodes[|nodes| - 1]] == nodes;
    }
  }

  /** The pass works span by span. */
  lemma SyntaxPassAppend(a: seq<TextNode>, b: seq<TextNode>, k: Syntax)
    ensures SyntaxPass(a + b, k) == SyntaxPass(a, k) + SyntaxPass(b, k)
  {
    assert SplitAll(a + b, k) == SplitAll(a, k) + SplitAll(b, k);
    FlattenAppend(SplitAll(a, k), SplitAll(b, k));
  }

  lemma {:induction false} FlattenAppend(p: seq<seq<TextNode>>, q: seq<seq<TextNode>>)
    ensures Flatten(p + q) == Flatten(p) + Flatten(q)
    decreases |q|
  {
    if q == [] {
      assert p + q == p;
    } else {
      assert (p + q)[..|p + q| - 1] == p + q[..|q| - 1];
      FlattenAppend(p, q[..|q| - 1]);
      AppendAssoc(Flatten(p), Flatten(q[..|q| - 1]), q[|q| - 1]);
    }
  }

  // ---------------------------------------------------------------------
  // The reference: cutting at the matches themselves

  /** The first match as a cut: the text before it, its groups, and the
      text after it. `re.findall` goes on with that text. */
  function MatchCut(text: string, k: Syntax): (c: Option<(string, (string, string), string)>)
    ensures c.None? <==> FirstMatch(text, k).None?
    ensures c.Some? ==> |c.value.2| < |text|
    ensures c.Some? ==> c.value.2 == text[FirstMatch(text, k).value.2 + 1..]
    ensures c.Some? ==> FindAllMatches(text, k) == [c.value.1] + FindAllMatches(c.value.2, k)
  {
    match FirstMatch(text, k)
    case None => None
    case Some(m) =>
      FindAllStep(text, k);
      Some((text[..m.0], Groups(text, m, k), text[m.2 + 1..]))
  }

  /** `re.findall` takes the first match, then goes on after it. */
  lemma FindAllStep(text: string, k: Syntax)
    requires FirstMatch(text, k).Some?
    ensures var m := FirstMatch(text, k).value;
      m.2 < |text| &&
      FindAllMatches(text, k) == [Groups(text, m, k)] + FindAllMatches(text[m.2 + 1..], k)
  {
  }

  /** What the pass is meant to do with a text: keep the text before the
      first match as a plain span, make the match a typed span, and go on
      after the match. */
  function MatchSplit(text: string, k: Syntax): seq<TextNode>
    decreases |text|
  {
    match MatchCut(text, k)
    case None => Plain(text)
    case Some((before, g, after)) => Plain(before) + [Typed(k, g)] + MatchSplit(after, k)
  }

  /** When the literal first occurs where the match starts, the loop cuts
      at the match. */
  lemma CutAtMatch(text: string, k: Syntax)
    requires FirstMatch(text, k).Some?
    requires IndexOf(text, Literal(k, Groups(text, FirstMatch(text, k).value, k)))
      == Some(FirstMatch(text, k).value.0)
    ensures Cut(text, k) == MatchCut(text, k)
  {
    var m := FirstMatch(text, k).value;
    SplitAtMatch(text, m, k);
  }

  /** The image pass cuts every text exactly at its matches. */
  lemma {:induction false} ImageSplitIsMatchSplit(text: string)
    ensures SplitText(text, ImageSyntax) == MatchSplit(text, ImageSyntax)
    decreases |text|
  {
    match MatchCut(text, ImageSyntax)
    case None =>
      NoCutPlain(text, ImageSyntax);
    case Some((before, g, after)) =>
      ImageLiteralFirst(text);
      CutAtMatch(text, ImageSyntax);
      ImageSplitIsMatchSplit(after);
      SameCutSameSplit(text, ImageSyntax);
  }

  /** Cutting alike, and splitting alike after the cut, split alike. */
  lemma SameCutSameSplit(text: string, k: Syntax)
    requires Cut(text, k) == MatchCut(text, k)
    requires Cut(text, k).Some? ==> SplitText(Cut(text, k).value.2, k) == MatchSplit(Cut(text, k).value.2, k)
    ensures SplitText(text, k) == MatchSplit(text, k)
  {
  }

  /** A text without images has no image after a cut either. */
  lemma NoImageInSuffix(text: string, d: nat)
    requires d <= |text| && NoMatch(text, ImageSyntax)
    ensures NoMatch(text[d..], ImageSyntax)
  {
    forall p, q, r ensures !MatchAt(text[d..], p, q, r, ImageSyntax) {
      if MatchAt(text[d..], p, q, r, ImageSyntax) {
        ImageInSuffix(text, d, p, q, r);
      }
    }
  }

  /** The link pass cuts a text without images exactly at its matches.
      With an image present, the first occurrence of a link's literal can
      lie inside the image. */
  lemma {:induction false} LinkSplitIsMatchSplit(text: string)
    requires NoMatch(text, ImageSyntax)
    ensures SplitText(text, LinkSyntax) == MatchSplit(text, LinkSyntax)
    decreases |text|
  {
    match MatchCut(text, LinkSyntax)
    case None =>
      NoCutPlain(text, LinkSyntax);
    case Some((before, g, after)) =>
      LinkCutAtMatch(text);
      LinkSplitIsMatchSplit(after);
      SameCutSameSplit(text, LinkSyntax);
  }

  /** Without images the link loop cuts at the first match, and what follows
      has no image either. */
  lemma LinkCutAtMatch(text: string)
    requires NoMatch(text, ImageSyntax) && MatchCut(text, LinkSyntax).Some?
    ensures Cut(text, LinkSyntax) == MatchCut(text, LinkSyntax)
    ensures NoMatch(MatchCut(text, LinkSyntax).value.2, ImageSyntax)
  {
    assert FindAllMatches(text, ImageSyntax) == [];
    LinkLiteralFirst(text);
    CutAtMatch(text, LinkSyntax);
    NoImageInSuffix(text, FirstMatch(text, LinkSyntax).value.2 + 1);
  }

  /** The groups of the typed spans of the pass's kind, in order. */
  function Extracted(ns: seq<TextNode>, k: Syntax): seq<(string, string)> {
    if ns == [] then []
    else
      var last := ns[|ns| - 1];
      Extracted(ns[..|ns| - 1], k)
      + (if last.textType == SpanType(k) && last.url.Some? then [(last.text, last.url.value)] else [])
  }

  lemma {:induction false} ExtractedAppend(a: seq<TextNode>, b: seq<TextNode>, k: Syntax)
    ensures Extracted(a + b, k) == Extracted(a, k) + Extracted(b, k)
    decreases |b|
  {
    if b == [] {
      assert a + b == a;
    } else {
      var init := b[..|b| - 1];
      assert (a + b)[..|a + b| - 1] == a + init;
      ExtractedAppend(a, init, k);
      var e := if b[|b| - 1].textType == SpanType(k) && b[|b| - 1].url.Some?
        then [(b[|b| - 1].text, b[|b| - 1].url.value)] else [];
      AppendAssoc(Extracted(a, k), Extracted(init, k), e);
    }
  }

  /** One cut yields the match's groups and then what the rest yields. */
  lemma ExtractedCut(before: string, g: (string, string), rest: seq<TextNode>, k: Syntax)
    ensures Extracted(Plain(before) + [Typed(k, g)] + rest, k) == [g] + Extracted(rest, k)
  {
    ExtractedAppend(Plain(before) + [Typed(k, g)], rest, k);
    ExtractedAppend(Plain(before), [Typed(k, g)], k);
    assert Extracted(Plain(before), k) == [];
    assert Extracted([Typed(k, g)], k) == [g];
  }

  /** Cutting at the matches turns exactly the groups `re.findall` finds
      into typed spans, in the order found. */
  lemma {:induction false} MatchSplitExtracts(text: string, k: Syntax)
    ensures Extracted(MatchSplit(text, k), k) == FindAllMatches(text, k)
    decreases |text|
  {
    match MatchCut(text, k)
    case None =>
      assert Extracted(Plain(text), k) == [];
    case Some((before, g, after)) =>
      MatchSplitExtracts(after, k);
      ExtractedCut(before, g, MatchSplit(after, k), k);
  }

  /** The image spans the pass makes from a text are the images
      `extract_markdown_images` finds in it, in order. */
  lemma ImageSpansExtracted(text: string)
    ensures Extracted(SplitText(text, ImageSyntax), ImageSyntax) == ExtractMarkdownImages(text)
  {
    ImageSplitIsMatchSplit(text);
    MatchSplitExtracts(text, ImageSyntax);
  }

  /** The link spans made from a text without images are the links
      `extract_markdown_links` finds in it, in order. */
  lemma LinkSpansExtracted(text: string)
    requires NoMatch(text, ImageSyntax)
    ensures Extracted(SplitText(text, LinkSyntax), LinkSyntax) == ExtractMarkdownLinks(text)
  {
    LinkSplitIsMatchSplit(text);
    MatchSplitExtracts(text, LinkSyntax);
  }
}
