/**
 * Undo records as snapshots. The undo/redo behaviour of the program's undo actions is
 * outside the model: a record is only the prior state it captured.
 */
module Undo {
  import opened Pages

  /** The state of one page captured just before its background was changed. */
  datatype BackgroundChange = BackgroundChange(
    page: nat,
    origType: PageType,
    origPdfPage: nat,
    origImage: BackgroundImage,
    origWidth: real,
    origHeight: real)

  /** An entry of the undo history: one page's change, or a group of them pushed as one step. */
  datatype UndoAction = PageBackgroundChanged(change: BackgroundChange) | GroupUndo(members: seq<BackgroundChange>)

  /** The record capturing page `p`, found at index `n`. */
  function Snapshot(n: nat, p: Page): BackgroundChange {
    BackgroundChange(n, p.bgType, p.pdfPageNr, p.image, p.width, p.height)
  }

  /** Writes the captured fields of `r` back onto `p`; the colour is not captured and stays. */
  function RestoreSnapshot(p: Page, r: BackgroundChange): Page {
    p.(width := r.origWidth, height := r.origHeight, bgType := r.origType,
       pdfPageNr := r.origPdfPage, image := r.origImage)
  }

  /** Writes a record back onto the page it names, if the document still has that page. */
  function RestoreInDocument(d: Document, r: BackgroundChange): Document {
    if r.page < |d.pages| then d.WithPage(r.page, RestoreSnapshot(d.pages[r.page], r)) else d
  }

  /** Writes every record of a group back, first to last. */
  function RestoreAll(d: Document, rs: seq<BackgroundChange>): Document
    decreases |rs|
  {
    if rs == [] then d else RestoreAll(RestoreInDocument(d, rs[0]), rs[1..])
  }
}
