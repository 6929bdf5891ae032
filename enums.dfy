/** The two enumerations of the converter: the kind of an inline span and
    the kind of a block. */
module MarkdownEnums {

  datatype TextType = Text | Bold | Italic | Code | Link | Image

  datatype BlockType = Paragraph | Heading | CodeBlock | Quote | UnorderedList | OrderedList
}

/** An inline span: its text, its kind and, for links and images, its URL.
    Two spans are equal exactly when all three fields are equal. */
module TextNodes {
  import opened Wrappers
  import opened MarkdownEnums

  datatype TextNode = TextNode(text: string, textType: TextType, url: Option<string>)

  /** `TextNode(text, text_type)` with the URL left at its default. */
  function Span(text: string, textType: TextType): (n: TextNode)
    ensures n.text == text && n.textType == textType && n.url == None
  {
    TextNode(text, textType, None)
  }
}
