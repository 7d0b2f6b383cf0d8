/** What the HTML parser hands the crawler: the elements of a fetched page.
    Parsing itself (tag soup repair, entity decoding, text extraction) is done
    by an external library and is not part of this model. */
module Markup {

  /** One element: its tag name, its attributes and, for the elements that
      need them (forms), all of its descendant elements in document order. */
  datatype Element = Element(tag: string, attrs: map<string, string>, descendants: seq<Element>)

  /** Every element of a page, in document order (what a `find_all` walks). */
  type Page = seq<Element>

  /** `element.get(name, default)`. */
  function Get(e: Element, name: string, default: string): string {
    if name in e.attrs then e.attrs[name] else default
  }
}
