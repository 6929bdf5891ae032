/** The exceptions the conversion code raises, one constructor per message. */
module Errors {

  datatype Error =
    | UnmatchedDelimiters        // split_nodes_delimiter: an odd number of delimiters
    | EmptySeparator             // str.split with an empty delimiter raises ValueError
    | UnsupportedDelimiter       // text_type_from_delimiter: not one of ** ` _
    | NoHeaderDetected           // get_header_from_block: the heading pattern did not match
    | NoCodeMatch                // get_codeblock_from_block: matches[0] on an empty match list
    | NotAHeader                 // extract_title: the block is not a heading
    | InvalidTitle               // extract_title: not an h1, or empty heading text
    | MissingNodeValue           // LeafNode.to_html: value is None
    | MissingNodeTag             // ParentNode.to_html: tag is None or empty
    | ParentMustHaveChildren     // ParentNode.to_html: children is None or empty
    | NotImplemented             // HTMLNode.to_html: the base class does not render
    | PropsNotSet                // HTMLNode.props_to_html: len(None) raises TypeError
}
