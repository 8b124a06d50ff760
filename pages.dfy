/** Values shared by the imposition model: an optional value, the visible-content
    box of a source page, and a document as the sequence of its pages' boxes. */
module Pages {

  datatype Option<T> = None | Some(value: T)

  /** The visible-content box (the PDF crop box) of a page: its lower-left corner
      and its extent. Coordinates are kept as integers; see README for what that
      leaves out. */
  datatype PageBox = PageBox(left: int, bottom: int, width: int, height: int)

  /** A document with its pages in reading order; page k (0-based) is doc[k]. */
  type Document = seq<PageBox>
}
