/** `LeafNode.to_html`: a leaf renders as its bare value or as one element
    wrapped around its value. */
module LeafNodes {
  import opened Wrappers
  import opened Errors
  import opened HtmlNodes

  /** The attribute text inside an opening tag: nothing when the dictionary
      is absent or empty, otherwise the string `props_to_html` returns. */
  function PropsString(props: Option<Props>): (s: string)
    ensures s == "" <==> props == None || props == Some([])
    ensures props.Some? && props.value != [] ==> PropsHtml(props) == Success(Some(s))
  {
    match props
    case None => ""
    case Some(ps) => if ps == [] then "" else PropsHtml(props).value.value
  }

  function OpenTag(tag: string, props: Option<Props>): string {
    "<" + tag + PropsString(props) + ">"
  }

  function CloseTag(tag: string): string {
    "</" + tag + ">"
  }

  /** Fails exactly when the value is missing; an untagged leaf is its value
      verbatim; a tagged leaf is `<tag attrs>value</tag>` with the value
      unescaped and an explicit closing tag even for an empty value. */
  function LeafToHtml(n: Node): (r: Result<string, Error>)
    requires n.Leaf?
    ensures r.Failure? <==> n.value == None
    ensures r.Failure? ==> r.error == MissingNodeValue
    ensures n.value.Some? && n.tag == None ==> r == Success(n.value.value)
    ensures n.value.Some? && n.tag.Some? ==>
      r == Success(OpenTag(n.tag.value, n.props) + n.value.value + CloseTag(n.tag.value))
  {
    if n.value.None? then Failure(MissingNodeValue)
    else if n.tag.None? then Success(n.value.value)
    else Success(OpenTag(n.tag.value, n.props) + n.value.value + CloseTag(n.tag.value))
  }

  /** `LeafNode("p", "Hello, world!").to_html()`. */
  lemma RenderParagraphLeaf()
    ensures LeafToHtml(Leaf(Some("p"), Some("Hello, world!"), None)) == Success("<p>Hello, world!</p>")
  {
    assert OpenTag("p", None) == "<p>";
    assert CloseTag("p") == "</p>";
    assert "<p>" + "Hello, world!" + "</p>" == "<p>Hello, world!</p>";
  }

  /** `LeafNode("a").to_html()` raises. */
  lemma RenderLeafWithoutValue()
    ensures LeafToHtml(Leaf(Some("a"), None, None)) == Failure(MissingNodeValue)
  {
  }
}
