/**
 * Properties relating the controller's operations to each other: what a snapshot is
 * enough to recover, what a copied background is, and the cases where the controller
 * reports success or records a change although the user chose nothing.
 */
module BackgroundProperties {
  import opened Options
  import opened Pages
  import opened Selection
  import opened Undo
  import opened PageBackgroundChangeController

  /** The payload a background type draws from: a PDF page, an image or a colour. */
  datatype Payload = PdfPayload(pdfPageNr: nat) | ImagePayload(image: BackgroundImage) | ColorPayload(color: Color)

  /** The background of a page as it is drawn: size, type, and the payload the type uses. */
  datatype ResolvedBackground = ResolvedBackground(width: real, height: real, bgType: PageType, payload: Payload)

  function Resolve(p: Page): ResolvedBackground {
    var payload :=
      if p.bgType.IsPdfPage() then PdfPayload(p.pdfPageNr)
      else if p.bgType.IsImagePage() then ImagePayload(p.image)
      else ColorPayload(p.color);
    ResolvedBackground(p.width, p.height, p.bgType, payload)
  }

  /** The undo record of a commit captures everything the commit changed: writing it back gives the old document. */
  lemma CommitRecordRecoversDocument(doc: Document, n: nat, pt: PageType, choice: UserChoice)
    requires n < |doc.pages|
    ensures var r := CommitPageTypeChange(doc, n, pt, choice);
      r.record.Some? && RestoreInDocument(r.doc, r.record.value) == doc
  {
    var r := CommitPageTypeChange(doc, n, pt, choice);
    var restored := RestoreInDocument(r.doc, r.record.value);
    assert restored.pages[n] == doc.pages[n];
    assert restored.pages == doc.pages;
  }

  /** A copied background is drawn exactly like the source's, whatever the target was. */
  lemma CopyCarriesResolvedBackground(target: Page, source: Page)
    ensures Resolve(CopyBackgroundFromOtherPage(target, source)) == Resolve(source)
  {
  }

  /** Copying the same source twice is the same as copying it once. */
  lemma CopyBackgroundIdempotent(target: Page, source: Page)
    ensures var once := CopyBackgroundFromOtherPage(target, source);
      CopyBackgroundFromOtherPage(once, source) == once
  {
  }

  /** Applying a pattern type a second time changes nothing more. */
  lemma PatternApplyIdempotent(pdfPages: seq<PdfPage>, page: Page, index: Option<nat>, pt: PageType, c1: UserChoice, c2: UserChoice)
    requires pt.IsPattern()
    ensures var once := ApplyPageBackground(pdfPages, page, index, pt, c1).page;
      ApplyPageBackground(pdfPages, once, index, pt, c2) == Applied(true, once, [])
  {
  }

  /**
   * A commit whose apply step failed (a cancelled file chooser, an unloadable image, no
   * PDF pages) still returns an undo record and still announces the page as changed,
   * while the document stays as it was.
   */
  lemma FailedApplyStillCommits(doc: Document, n: nat, pt: PageType, choice: UserChoice)
    requires n < |doc.pages|
    requires !ApplyPageBackground(doc.pdfPages, doc.pages[n], Some(n), pt, choice).ok
    ensures var r := CommitPageTypeChange(doc, n, pt, choice);
      && r.doc == doc
      && r.record == Some(Snapshot(n, doc.pages[n]))
      && PageChanged(n) in r.events
  {
    var r := CommitPageTypeChange(doc, n, pt, choice);
    assert r.doc.pages == doc.pages;
    assert r.events[|r.events| - 2] == PageChanged(n);
  }

  /** A PDF pick past the last PDF page (what a cancelled dialog reports) counts as success and changes nothing. */
  lemma PdfPickPastEndSucceedsUnchanged(pdfPages: seq<PdfPage>, page: Page, index: Option<nat>, pt: PageType, choice: UserChoice)
    requires pt.IsPdfPage() && 0 < |pdfPages| <= choice.pdfPage
    ensures ApplyPageBackground(pdfPages, page, index, pt, choice) == Applied(true, page, [])
  {
  }

  /**
   * When the images dialog yields neither an image nor a file-chooser request, the image
   * path succeeds, leaves type and image alone, and a page that already has an image
   * with a pixbuf is resized to it.
   */
  lemma ImageDialogWithoutChoiceSucceeds(page: Page, index: Option<nat>, choice: ImageChoice)
    requires choice.selected.IsEmpty() && !choice.showFileChooser
    ensures var r := ApplyImageBackground(page, index, choice);
      && r.ok
      && r.page.bgType == page.bgType && r.page.image == page.image
      && (page.image.Pixbuf().Some? ==>
            r.page.width == page.image.Pixbuf().value.width as real
            && r.page.height == page.image.Pixbuf().value.height as real)
      && (page.image.Pixbuf().None? ==> r.page == page)
  {
  }

  /**
   * With no type configured for new pages, the inserted page is drawn exactly like the
   * current page.
   */
  lemma InsertedPageCopiesCurrent(c: Controller, position: nat, t: PageTemplate, choice: UserChoice)
    requires c.pageTypeForNewPages.None? && c.CurrentPage().Some?
    ensures var r := InsertNewPage(c, position, t, choice);
      r.position.Some? && Resolve(r.state.doc.pages[r.position.value]) == Resolve(c.doc.pages[c.currentPage])
  {
  }

  /**
   * With a PDF type configured for new pages, a PDF pick past the last PDF page does not
   * abort the insertion: a page is inserted that keeps the blank page's type.
   */
  lemma PdfTemplatePickPastEndStillInserts(c: Controller, position: nat, t: PageTemplate, choice: UserChoice)
    requires c.pageTypeForNewPages.Some? && c.pageTypeForNewPages.value.IsPdfPage()
    requires 0 < |c.doc.pdfPages| <= choice.pdfPage
    requires t.copyLastPageSize ==> c.CurrentPage().Some?
    ensures var r := InsertNewPage(c, position, t, choice);
      && r.position.Some?
      && r.state.doc.pages[r.position.value].bgType == NewPage(t.pageWidth, t.pageHeight).bgType
      && !r.state.doc.pages[r.position.value].bgType.IsPdfPage()
  {
  }

  /** With no PDF pages, a PDF type configured for new pages makes every insertion fail. */
  lemma PdfTemplateWithoutPdfInsertsNothing(c: Controller, position: nat, t: PageTemplate, choice: UserChoice)
    requires c.pageTypeForNewPages.Some? && c.pageTypeForNewPages.value.IsPdfPage()
    requires |c.doc.pdfPages| == 0
    ensures var r := InsertNewPage(c, position, t, choice);
      r.position.None? && r.state.doc == c.doc && r.state.events == c.events + [ErrorShown(NoPdfPages)]
  {
  }
}
