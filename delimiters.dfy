/** `split_nodes_delimiter`: the pass that cuts every plain span at a
    delimiter such as `**` and types every second segment. */
module Delimiters {
  import opened Wrappers
  import opened Errors
  import opened Strings
  import opened MarkdownEnums
  import opened TextNodes

  /** `text_type_from_delimiter`: the kind of span each supported delimiter
      marks. */
  function TextTypeFromDelimiter(delimiter: string): (r: Result<TextType, Error>)
    ensures r.Failure? <==> delimiter != "**" && delimiter != "`" && delimiter != "_"
    ensures r.Failure? ==> r.error == UnsupportedDelimiter
    ensures delimiter == "**" <==> r == Success(Bold)
    ensures delimiter == "`" <==> r == Success(Code)
    ensures delimiter == "_" <==> r == Success(Italic)
  {
    if delimiter == "**" then Success(Bold)
    else if delimiter == "`" then Success(Code)
    else if delimiter == "_" then Success(Italic)
    else Failure(UnsupportedDelimiter)
  }

  /** The kind of the segment at index `i`: segments alternate between plain
      text and delimited text, starting with plain text. */
  function SegmentType(i: nat, textType: TextType): TextType {
    if i % 2 == 1 then textType else Text
  }

  /** The spans made from the segments of one plain span; an empty segment
      makes no span. */
  function Alternate(segments: seq<string>, textType: TextType): (ns: seq<TextNode>)
    ensures |ns| <= |segments|
  {
    if segments == [] then []
    else
      var i := |segments| - 1;
      Alternate(segments[..i], textType)
      + (if segments[i] == "" then [] else [Span(segments[i], SegmentType(i, textType))])
  }

  /** What the pass makes of one span. Typed spans are kept; a plain span is
      split at the delimiter, and its segments must come in an odd number. */
  function DelimitNode(node: TextNode, delimiter: string, textType: TextType): (r: Result<seq<TextNode>, Error>)
    ensures node.textType != Text ==> r == Success([node])
    ensures node.textType == Text && |delimiter| == 0 ==> r == Failure(EmptySeparator)
    ensures node.textType == Text && |delimiter| > 0 ==>
      (r.Failure? <==> |Split(node.text, delimiter)| % 2 == 0)
    ensures node.textType == Text && |delimiter| > 0 && r.Failure? ==> r.error == UnmatchedDelimiters
  {
    if node.textType != Text then Success([node])
    else if |delimiter| == 0 then Failure(EmptySeparator)
    else
      var segments := Split(node.text, delimiter);
      if |segments| >= 3 && |segments| % 2 == 1 then Success(Alternate(segments, textType))
      else if |segments| == 1 then Success([Span(segments[0], Text)])
      else Failure(UnmatchedDelimiters)
  }

  /** The output of every span, in order. */
  function DelimitAll(nodes: seq<TextNode>, delimiter: string, textType: TextType): (rs: seq<Result<seq<TextNode>, Error>>)
    ensures |rs| == |nodes|
    ensures forall i | 0 <= i < |nodes| :: rs[i] == DelimitNode(nodes[i], delimiter, textType)
  {
    seq(|nodes|, i requires 0 <= i < |nodes| => DelimitNode(nodes[i], delimiter, textType))
  }

  /** The outputs concatenated in order, or the first failure among them. */
  function Collect(rs: seq<Result<seq<TextNode>, Error>>): Result<seq<TextNode>, Error> {
    if rs == [] then Success([])
    else
      var prefix :- Collect(rs[..|rs| - 1]);
      var last :- rs[|rs| - 1];
      Success(prefix + last)
  }

  /** `split_nodes_delimiter(old_nodes, delimiter, text_type)`: every span in
      turn, failing at the first span that fails. */
  function DelimiterPass(nodes: seq<TextNode>, delimiter: string, textType: TextType): Result<seq<TextNode>, Error> {
    Collect(DelimitAll(nodes, delimiter, textType))
  }

  /** The loop over the spans. */
  method SplitNodesDelimiter(oldNodes: seq<TextNode>, delimiter: string, textType: TextType)
    returns (r: Result<seq<TextNode>, Error>)
    ensures r == DelimiterPass(oldNodes, delimiter, textType)
  {
    var newNodes: seq<TextNode> := [];
    var i := 0;
    while i < |oldNodes|
      invariant 0 <= i <= |oldNodes|
      invariant DelimiterPass(oldNodes[..i], delimiter, textType) == Success(newNodes)
    {
      var node := oldNodes[i];
      PassStep(oldNodes, i, delimiter, textType);
      if node.textType != Text {
        newNodes := newNodes + [node];
      } else if |delimiter| == 0 {
        PassPrefixFailure(oldNodes, i + 1, delimiter, textType);
        return Failure(EmptySeparator);
      } else {
        var segments := Split(node.text, delimiter);
        if |segments| >= 3 && |segments| % 2 == 1 {
          newNodes := AppendSegments(newNodes, segments, textType);
        } else if |segments| == 1 {
          newNodes := newNodes + [Span(segments[0], Text)];
        } else {
          PassPrefixFailure(oldNodes, i + 1, delimiter, textType);
          return Failure(UnmatchedDelimiters);
        }
      }
      i := i + 1;
    }
    assert oldNodes[..i] == oldNodes;
    return Success(newNodes);
  }

  /** The inner loop over the segments, toggling between plain and
      delimited text. */
  method AppendSegments(nodes: seq<TextNode>, segments: seq<string>, textType: TextType)
    returns (newNodes: seq<TextNode>)
    ensures newNodes == nodes + Alternate(segments, textType)
  {
    newNodes := nodes;
    var inDelimitedSegment := false;
    var j := 0;
    while j < |segments|
      invariant 0 <= j <= |segments|
      invariant inDelimitedSegment == (j % 2 == 1)
      invariant newNodes == nodes + Alternate(segments[..j], textType)
    {
      AlternateStep(segments, j, textType);
      if |segments[j]| > 0 {
        var span := Span(segments[j], if inDelimitedSegment then textType else Text);
        AppendAssoc(nodes, Alternate(segments[..j], textType), [span]);
        newNodes := newNodes + [span];
      } else {
        AppendEmpty(Alternate(segments[..j], textType));
      }
      ParityStep(j);
      inDelimitedSegment := !inDelimitedSegment;
      j := j + 1;
    }
    TakeAll(segments);
  }

  lemma ParityStep(j: nat)
    ensures ((j + 1) % 2 == 1) == (j % 2 != 1)
  {
  }

  lemma AlternateStep(segments: seq<string>, j: nat, textType: TextType)
    requires j < |segments|
    ensures Alternate(segments[..j + 1], textType) == Alternate(segments[..j], textType)
      + (if segments[j] == "" then [] else [Span(segments[j], SegmentType(j, textType))])
  {
    assert segments[..j + 1][..j] == segments[..j];
  }

  /** One more span: the pass on the longer prefix is the pass on the shorter
      one followed by that span's output. */
  lemma PassStep(nodes: seq<TextNode>, i: nat, delimiter: string, textType: TextType)
    requires i < |nodes|
    ensures DelimiterPass(nodes[..i + 1], delimiter, textType) ==
      var p := DelimiterPass(nodes[..i], delimiter, textType);
      var l := DelimitNode(nodes[i], delimiter, textType);
      if p.Failure? then Failure(p.error) else if l.Failure? then Failure(l.error) else Success(p.value + l.value)
  {
    var rs := DelimitAll(nodes[..i + 1], delimiter, textType);
    assert rs[..i] == DelimitAll(nodes[..i], delimiter, textType);
  }

  /** Once a prefix fails, the whole pass fails the same way. */
  lemma PassPrefixFailure(nodes: seq<TextNode>, k: nat, delimiter: string, textType: TextType)
    requires k <= |nodes| && DelimiterPass(nodes[..k], delimiter, textType).Failure?
    ensures DelimiterPass(nodes, delimiter, textType) == DelimiterPass(nodes[..k], delimiter, textType)
  {
    var rs := DelimitAll(nodes, delimiter, textType);
    assert rs[..k] == DelimitAll(nodes[..k], delimiter, textType);
    CollectPrefixFailure(rs, k);
  }

  lemma {:induction false} CollectPrefixFailure(rs: seq<Result<seq<TextNode>, Error>>, k: nat)
    requires k <= |rs| && Collect(rs[..k]).Failure?
    ensures Collect(rs) == Collect(rs[..k])
    decreases |rs|
  {
    if k < |rs| {
      assert rs[..|rs| - 1][..k] == rs[..k];
      CollectPrefixFailure(rs[..|rs| - 1], k);
    } else {
      assert rs[..k] == rs;
    }
  }

  // ---------------------------------------------------------------------
  // Properties of one span

  /** A plain span fails exactly when the delimiter occurs an odd number of
      times, which leaves an even number of segments. */
  lemma UnmatchedIffOddCount(node: TextNode, delimiter: string, textType: TextType)
    requires node.textType == Text && |delimiter| > 0
    ensures DelimitNode(node, delimiter, textType).Failure? <==> Count(node.text, delimiter) % 2 == 1
    ensures DelimitNode(node, delimiter, textType).Failure? ==>
      DelimitNode(node, delimiter, textType).error == UnmatchedDelimiters
  {
    SplitCount(node.text, delimiter);
    SuccessorParity(Count(node.text, delimiter), |Split(node.text, delimiter)|);
  }

  lemma SuccessorParity(c: nat, n: nat)
    requires n == c + 1
    ensures n % 2 == 0 <==> c % 2 == 1
  {
  }

  /** A plain span without the delimiter comes out as it went in. */
  lemma NoDelimiterUnchanged(text: string, delimiter: string, textType: TextType)
    requires |delimiter| > 0 && !Contains(text, delimiter)
    ensures DelimitNode(Span(text, Text), delimiter, textType) == Success([Span(text, Text)])
  {
    SplitSingle(text, delimiter);
  }

  /** The concatenated texts of some spans. */
  function TextOf(ns: seq<TextNode>): string {
    if ns == [] then "" else TextOf(ns[..|ns| - 1]) + ns[|ns| - 1].text
  }

  /** Every span is non-empty, has no URL, and is plain or of the
      delimiter's kind. */
  lemma {:induction false} AlternateSpans(segments: seq<string>, textType: TextType)
    ensures forall i | 0 <= i < |Alternate(segments, textType)| ::
      (Alternate(segments, textType)[i].text != "" && Alternate(segments, textType)[i].url == None
       && Alternate(segments, textType)[i].textType in {Text, textType})
  {
    if segments != [] {
      AlternateSpans(segments[..|segments| - 1], textType);
    }
  }

  /** Dropping the empty segments loses no text. */
  lemma {:induction false} AlternateText(segments: seq<string>, textType: TextType)
    ensures TextOf(Alternate(segments, textType)) == Concat(segments)
  {
    if segments != [] {
      var i := |segments| - 1;
      var prefix := Alternate(segments[..i], textType);
      AlternateText(segments[..i], textType);
      assert segments == segments[..i] + [segments[i]];
      ConcatAppend(segments[..i], segments[i]);
      if segments[i] != "" {
        assert (prefix + [Span(segments[i], SegmentType(i, textType))])[..|prefix|] == prefix;
      } else {
        assert prefix + [] == prefix;
      }
    }
  }

  /** Without empty segments, span `i` is segment `i`, plain at even and typed
      at odd indices. */
  lemma {:induction false} AlternateNoEmpty(segments: seq<string>, textType: TextType)
    requires forall j | 0 <= j < |segments| :: segments[j] != ""
    ensures |Alternate(segments, textType)| == |segments|
    ensures forall j | 0 <= j < |segments| ::
      Alternate(segments, textType)[j] == Span(segments[j], SegmentType(j, textType))
  {
    if segments != [] {
      AlternateNoEmpty(segments[..|segments| - 1], textType);
    }
  }

  /** Every span made from segments that lack the delimiter lacks it too. */
  lemma {:induction false} AlternateLacks(segments: seq<string>, textType: TextType, delimiter: string)
    requires forall j | 0 <= j < |segments| :: !Contains(segments[j], delimiter)
    ensures forall i | 0 <= i < |Alternate(segments, textType)| ::
      !Contains(Alternate(segments, textType)[i].text, delimiter)
  {
    if segments != [] {
      AlternateLacks(segments[..|segments| - 1], textType, delimiter);
    }
  }

  // ---------------------------------------------------------------------
  // Properties of the pass

  /** The pass works span by span: it succeeds on `a + b` exactly when it
      succeeds on both, with the outputs concatenated. */
  lemma PassAppend(a: seq<TextNode>, b: seq<TextNode>, delimiter: string, textType: TextType)
    ensures DelimiterPass(a + b, delimiter, textType).Success? <==>
      DelimiterPass(a, delimiter, textType).Success? && DelimiterPass(b, delimiter, textType).Success?
    ensures DelimiterPass(a + b, delimiter, textType).Success? ==>
      DelimiterPass(a + b, delimiter, textType).value
      == DelimiterPass(a, delimiter, textType).value + DelimiterPass(b, delimiter, textType).value
  {
    assert DelimitAll(a + b, delimiter, textType)
      == DelimitAll(a, delimiter, textType) + DelimitAll(b, delimiter, textType);
    CollectAppend(DelimitAll(a, delimiter, textType), DelimitAll(b, delimiter, textType));
  }

  lemma {:induction false} CollectAppend(r: seq<Result<seq<TextNode>, Error>>, t: seq<Result<seq<TextNode>, Error>>)
    ensures Collect(r + t).Success? <==> Collect(r).Success? && Collect(t).Success?
    ensures Collect(r + t).Success? ==> Collect(r + t).value == Collect(r).value + Collect(t).value
    decreases |t|
  {
    if t == [] {
      assert r + t == r;
    } else {
      var t' := t[..|t| - 1];
      assert (r + t)[..|r + t| - 1] == r + t';
      assert (r + t)[|r + t| - 1] == t[|t| - 1];
      CollectAppend(r, t');
    }
  }

  /** The pass on a non-empty list is the pass on all but its last span,
      followed by the last span's output. */
  lemma PassLast(nodes: seq<TextNode>, delimiter: string, textType: TextType)
    requires nodes != []
    ensures DelimiterPass(nodes, delimiter, textType) ==
      var p := DelimiterPass(nodes[..|nodes| - 1], delimiter, textType);
      var l := DelimitNode(nodes[|nodes| - 1], delimiter, textType);
      if p.Failure? then Failure(p.error) else if l.Failure? then Failure(l.error) else Success(p.value + l.value)
  {
    PassStep(nodes, |nodes| - 1, delimiter, textType);
    assert nodes[..|nodes|] == nodes;
  }

  /** Typed spans are never split again. */
  lemma {:induction false} TypedPassThrough(nodes: seq<TextNode>, delimiter: string, textType: TextType)
    requires forall i | 0 <= i < |nodes| :: nodes[i].textType != Text
    ensures DelimiterPass(nodes, delimiter, textType) == Success(nodes)
  {
    if nodes != [] {
      TypedPassThrough(nodes[..|nodes| - 1], delimiter, textType);
      PassLast(nodes, delimiter, textType);
      assert nodes[..|nodes| - 1] + [nodes[|nodes| - 1]] == nodes;
    }
  }

  /** The text a span keeps: a plain span loses every delimiter, a typed span
      keeps its text. */
  function Kept(node: TextNode, delimiter: string): string
    requires |delimiter| > 0
  {
    if node.textType == Text then Concat(Split(node.text, delimiter)) else node.text
  }

  function KeptAll(nodes: seq<TextNode>, delimiter: string): string
    requires |delimiter| > 0
  {
    if nodes == [] then "" else KeptAll(nodes[..|nodes| - 1], delimiter) + Kept(nodes[|nodes| - 1], delimiter)
  }

  /** The output of one span spells the text it keeps. */
  lemma NodeText(node: TextNode, delimiter: string, textType: TextType)
    requires |delimiter| > 0 && DelimitNode(node, delimiter, textType).Success?
    ensures TextOf(DelimitNode(node, delimiter, textType).value) == Kept(node, delimiter)
  {
    if node.textType == Text {
      var segments := Split(node.text, delimiter);
      if |segments| >= 3 {
        AlternateText(segments, textType);
      } else {
        assert segments == [segments[0]];
        assert Concat(segments) == segments[0] + Concat([]);
        TextOfSingle(Span(segments[0], Text));
      }
    } else {
      TextOfSingle(node);
    }
  }

  /** On success the output texts are the input texts with every delimiter
      removed from the plain spans. */
  lemma {:induction false} PassText(nodes: seq<TextNode>, delimiter: string, textType: TextType)
    requires |delimiter| > 0 && DelimiterPass(nodes, delimiter, textType).Success?
    ensures TextOf(DelimiterPass(nodes, delimiter, textType).value) == KeptAll(nodes, delimiter)
  {
    if nodes != [] {
      var init, last := nodes[..|nodes| - 1], nodes[|nodes| - 1];
      PassLast(nodes, delimiter, textType);
      PassText(init, delimiter, textType);
      NodeText(last, delimiter, textType);
      TextOfAppend(DelimiterPass(init, delimiter, textType).value, DelimitNode(last, delimiter, textType).value);
    }
  }

  lemma TextOfSingle(n: TextNode)
    ensures TextOf([n]) == n.text
  {
    assert [n][..0] == [];
  }

  lemma {:induction false} TextOfAppend(a: seq<TextNode>, b: seq<TextNode>)
    ensures TextOf(a + b) == TextOf(a) + TextOf(b)
    decreases |b|
  {
    if b == [] {
      assert a + b == a;
    } else {
      assert (a + b)[..|a + b| - 1] == a + b[..|b| - 1];
      TextOfAppend(a, b[..|b| - 1]);
    }
  }

  /** No plain span that one span's output holds has the delimiter. */
  lemma NodeLacks(node: TextNode, delimiter: string, textType: TextType)
    requires |delimiter| > 0 && node.textType == Text && DelimitNode(node, delimiter, textType).Success?
    ensures forall i | 0 <= i < |DelimitNode(node, delimiter, textType).value| ::
      !Contains(DelimitNode(node, delimiter, textType).value[i].text, delimiter)
  {
    var segments := Split(node.text, delimiter);
    if |segments| >= 3 {
      AlternateLacks(segments, textType, delimiter);
    }
  }

  /** On success no plain span of the output holds the delimiter. */
  lemma {:induction false} PassLacksDelimiter(nodes: seq<TextNode>, delimiter: string, textType: TextType)
    requires |delimiter| > 0 && DelimiterPass(nodes, delimiter, textType).Success?
    ensures forall i | 0 <= i < |DelimiterPass(nodes, delimiter, textType).value| ::
      DelimiterPass(nodes, delimiter, textType).value[i].textType == Text ==>
      !Contains(DelimiterPass(nodes, delimiter, textType).value[i].text, delimiter)
  {
    if nodes != [] {
      var init, last := nodes[..|nodes| - 1], nodes[|nodes| - 1];
      PassLast(nodes, delimiter, textType);
      PassLacksDelimiter(init, delimiter, textType);
      if last.textType == Text {
        NodeLacks(last, delimiter, textType);
      }
    }
  }

  /** With a non-empty delimiter the only error the pass raises is
      "unmatched delimiters". */
  lemma {:induction false} PassFailsUnmatched(nodes: seq<TextNode>, delimiter: string, textType: TextType)
    requires |delimiter| > 0
    ensures DelimiterPass(nodes, delimiter, textType).Failure? ==>
      DelimiterPass(nodes, delimiter, textType).error == UnmatchedDelimiters
  {
    if nodes != [] {
      PassLast(nodes, delimiter, textType);
      PassFailsUnmatched(nodes[..|nodes| - 1], delimiter, textType);
    }
  }
}
