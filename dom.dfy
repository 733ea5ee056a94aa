/** What the extractor reads of a parsed page and of Readability's result.
    The HTML parser and Readability's scoring are not part of this model:
    their output is given as these values. */
module Dom {
  import opened Js

  /** A direct child of `document.body`: its `nodeName` (upper-case tag name
      for an element, `#text` or `#comment` otherwise) and its `textContent`. */
  datatype Node = Node(name: string, text: Option<string>)

  /** The parts of an element the scanners look at: the `content` and
      `datetime` attributes (null when missing) and the element's `textContent`. */
  datatype Element = Element(content: Option<string>, datetime: Option<string>, text: string)

  /** `doc.querySelector(selector)` for every selector the extractor asks about:
      the first element in document order that matches, or no entry when none does.
      The scanners run after Readability's `parse()`, which changes the document,
      so this is the page as Readability left it. */
  type Document = map<string, Element>

  /** The fields of Readability's parse result the extractor reads; `content`
      is the HTML of the main content. */
  datatype Readable = Readable(title: Option<string>, byline: Option<string>,
                               excerpt: Option<string>, content: Option<string>)
}
