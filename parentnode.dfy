/** `ParentNode.to_html` and rendering of a whole tree: a parent renders
    its children in order between its opening and closing tags, and any
    failure below it aborts the whole rendering. */
module ParentNodes {
  import opened Wrappers
  import opened Errors
  import opened Strings
  import opened HtmlNodes
  import opened LeafNodes

  /** What `node.to_html()` returns, for every kind of node. */
  function Render(n: Node): Result<string, Error>
    decreases n, 1
  {
    match n
    case Base(_, _, _, _) => BaseToHtml(n)
    case Leaf(_, _, _) => LeafToHtml(n)
    case Parent(tag, cs, childrenSet, props) =>
      if tag == None || tag.value == "" then Failure(MissingNodeTag)
      else if !childrenSet || cs == [] then Failure(ParentMustHaveChildren)
      else
        var inner :- RenderAll(cs);
        Success(OpenTag(tag.value, props) + inner + CloseTag(tag.value))
  }

  /** The children's HTML concatenated in order, or the first failure. */
  function RenderAll(cs: seq<Node>): Result<string, Error>
    decreases cs, 0
  {
    if cs == [] then Success("")
    else
      var before :- RenderAll(cs[..|cs| - 1]);
      var last :- Render(cs[|cs| - 1]);
      Success(before + last)
  }

  /** When every child renders, the result is their outputs in order. */
  lemma {:induction false} RenderAllOutputs(cs: seq<Node>, outs: seq<string>)
    requires |outs| == |cs|
    requires forall i | 0 <= i < |cs| :: Render(cs[i]) == Success(outs[i])
    ensures RenderAll(cs) == Success(Concat(outs))
    decreases |cs|
  {
    if cs != [] {
      var k := |cs| - 1;
      RenderAllOutputs(cs[..k], outs[..k]);
      ConcatAppend(outs[..k], outs[k]);
      assert outs[..k] + [outs[k]] == outs;
    }
  }

  /** A failure in a prefix is the failure of the whole sequence. */
  lemma {:induction false} RenderAllPrefixFailure(cs: seq<Node>, k: nat)
    requires k <= |cs| && RenderAll(cs[..k]).Failure?
    ensures RenderAll(cs) == RenderAll(cs[..k])
    decreases |cs| - k
  {
    if k < |cs| {
      var m := |cs| - 1;
      assert cs[..m][..k] == cs[..k];
      RenderAllPrefixFailure(cs[..m], k);
    } else {
      assert cs[..k] == cs;
    }
  }

  /** The first child that fails decides the error; nothing is produced. */
  lemma RenderAllFirstFailure(cs: seq<Node>, i: nat)
    requires i < |cs| && Render(cs[i]).Failure?
    requires forall j | 0 <= j < i :: Render(cs[j]).Success?
    ensures RenderAll(cs) == Failure(Render(cs[i]).error)
  {
    var outs := seq(i, j requires 0 <= j < i => Render(cs[j]).value);
    assert cs[..i + 1][..i] == cs[..i];
    RenderAllOutputs(cs[..i], outs);
    assert RenderAll(cs[..i + 1]) == Failure(Render(cs[i]).error);
    RenderAllPrefixFailure(cs, i + 1);
  }

  /** A parent with a tag and children renders as its opening tag, every
      child's HTML in order, and its closing tag. */
  lemma ParentRendersChildrenInOrder(n: Node, outs: seq<string>)
    requires n.Parent? && n.tag.Some? && n.tag.value != ""
    requires n.childrenSet && |outs| == |n.childList| > 0
    requires forall i | 0 <= i < |outs| :: Render(n.childList[i]) == Success(outs[i])
    ensures Render(n) == Success(OpenTag(n.tag.value, n.props) + Concat(outs) + CloseTag(n.tag.value))
  {
    RenderAllOutputs(n.childList, outs);
  }

  /** If any child fails, the parent fails with the first child's error. */
  lemma ParentFailsWithChild(n: Node, i: nat)
    requires n.Parent? && n.tag.Some? && n.tag.value != ""
    requires n.childrenSet && i < |n.childList|
    requires Render(n.childList[i]).Failure?
    requires forall j | 0 <= j < i :: Render(n.childList[j]).Success?
    ensures Render(n) == Failure(Render(n.childList[i]).error)
  {
    RenderAllFirstFailure(n.childList, i);
  }

  /** `node.to_html()`, dispatched on the node's class. */
  method ToHtml(n: Node) returns (r: Result<string, Error>)
    ensures r == Render(n)
    decreases n, 1
  {
    match n
    case Base(_, _, _, _) => r := BaseToHtml(n);
    case Leaf(_, _, _) => r := LeafToHtml(n);
    case Parent(_, _, _, _) => r := ParentToHtml(n);
  }

  /** `ParentNode.to_html`: guards, then the children's HTML accumulated
      one child at a time, then the attributes. */
  method ParentToHtml(n: Node) returns (r: Result<string, Error>)
    requires n.Parent?
    ensures r == Render(n)
    decreases n, 0
  {
    if n.tag == None || n.tag.value == "" {
      return Failure(MissingNodeTag);
    }
    if !n.childrenSet || n.childList == [] {
      return Failure(ParentMustHaveChildren);
    }
    var tag := n.tag.value;
    var cs := n.childList;
    var innerHtml := "";
    var i := 0;
    while i < |cs|
      invariant 0 <= i <= |cs|
      invariant RenderAll(cs[..i]) == Success(innerHtml)
    {
      assert cs[..i + 1][..i] == cs[..i];
      var h := ToHtml(cs[i]);
      if h.Failure? {
        RenderAllPrefixFailure(cs, i + 1);
        return Failure(h.error);
      }
      innerHtml := innerHtml + h.value;
      i := i + 1;
    }
    assert cs[..i] == cs;
    var propsString := "";
    if n.props.Some? && n.props.value != [] {
      var p := PropsToHtml(n);
      propsString := p.value.value;
    }
    assert propsString == PropsString(n.props);
    return Success("<" + tag + propsString + ">" + innerHtml + CloseTag(tag));
  }

  /** A parent without a tag, or with an empty one, cannot be rendered,
      whatever children it has. */
  lemma UntaggedParentFails(tag: Option<string>, children: Option<seq<Node>>, props: Option<Props>)
    requires tag == None || tag == Some("")
    ensures Render(NewParentNode(tag, children, props)) == Failure(MissingNodeTag)
  {
  }

  /** A parent with no children cannot be rendered, however it is tagged. */
  lemma ChildlessParentFails(tag: string, props: Option<Props>)
    requires tag != ""
    ensures Render(NewParentNode(Some(tag), Some([]), props)) == Failure(ParentMustHaveChildren)
    ensures Render(NewParentNode(Some(tag), None, props)) == Failure(ParentMustHaveChildren)
  {
  }
}
