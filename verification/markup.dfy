/** What the HTML parser hands the lookup, taken as already-extracted
    values: the anchors that carry an `href`, every `div` with its class
    list, and the first `p`, each in document order with stripped text. */
module Markup {
  import opened Wrappers

  /** An `<a href=...>` element: its stripped text and its `href` value. */
  datatype Anchor = Anchor(text: string, href: string)

  /** A `<div>`: its class list (empty when the attribute is absent) and
      its stripped text. */
  datatype Div = Div(classes: seq<string>, text: string)

  /** A parsed page. */
  datatype Document = Document(
    anchors: seq<Anchor>,
    divs: seq<Div>,
    firstParagraph: Option<string>)

  /** One GET of a URL followed by parsing: either a document or the text of
      the exception raised on the way (transport error, non-2xx status,
      parse failure). */
  type Fetch = string -> Result<Document, string>
}
