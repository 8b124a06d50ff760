/** The output writer that both the sheet merger and the blank-page padder append
    pages to, one page at a time. */
module Writer {

  class PdfWriter<T> {
    /** The pages written so far, in order. */
    var pages: seq<T>

    constructor ()
      ensures pages == []
    {
      pages := [];
    }

    /** Appends one page at the end of the output. */
    method AddPage(p: T)
      modifies this
      ensures pages == old(pages) + [p]
    {
      pages := pages + [p];
    }
  }
}
