/**
 * The few facts about the browser's document that the navigation bar and the
 * hero section read. Nothing here queries a real document: the result of a
 * `document.getElementById` lookup is handed to the components as a value.
 */
module Dom {

  /** The result of an element lookup: `None` stands for the `null` that
      `document.getElementById` returns when no element has the id. */
  datatype Option<+T> = None | Some(value: T)

  /** The geometry of a page section in document coordinates, in CSS pixels:
      `offsetTop` is the distance from the top of the document and
      `offsetHeight` the rendered height. Both are integers in the DOM. */
  datatype Element = Element(offsetTop: int, offsetHeight: int)

  /** The elements of the document by id, as `document.getElementById`
      would find them. */
  type Document = map<string, Element>
}
