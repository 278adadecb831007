/**
 * The `<span>` elements of the converted HTML, as the parser sees them: a style
 * attribute, compared literally, and the element's text.
 */
module Spans {

  /** The style attribute of a span:
      `font-family: Verdana-Bold; font-size:10px` (Bold10),
      `font-family: Verdana-Italic; font-size:10px` (Italic10),
      `font-family: Verdana; font-size:10px` (Plain10), or any other value (Other). */
  datatype Style = Bold10 | Italic10 | Plain10 | Other

  /** A span with its text as BeautifulSoup returns it (not yet stripped). */
  datatype Span = Span(style: Style, text: string)
}
