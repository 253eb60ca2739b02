/**
 * The page-background controller: applying a background type to a page (asking the
 * user for a PDF page or an image when the type needs one), snapshotting the page into
 * an undo record, batching a change over every page, copying a background between
 * pages and building a new page from the current page or the page template.
 */
module PageBackgroundChangeController {
  import opened Options
  import opened Pages
  import opened Selection
  import opened Undo

  /** Messages shown to the user when a change cannot be made. */
  datatype UserError = NoPdfPages | ImageNotLoaded(message: string)

  /** Notifications the controller sends out, in the order it sends them. */
  datatype Event =
    | PageChanged(index: nat)
    | PageSizeChanged(index: nat)
    | BackgroundSizeButtonUpdated
    | ErrorShown(error: UserError)

  /** The result of applying a background to one page: success flag, the page afterwards, notifications. */
  datatype Applied = Applied(ok: bool, page: Page, events: seq<Event>)

  /** The result of committing a change: the document afterwards, the undo record, notifications. */
  datatype Committed = Committed(doc: Document, record: Option<BackgroundChange>, events: seq<Event>)

  /** The page template settings a new page is built from. */
  datatype PageTemplate = PageTemplate(pageWidth: real, pageHeight: real, backgroundColor: Color, copyLastPageSize: bool)

  /**
   * The state the controller reads and writes: the document, the index of the current
   * page, the background type configured for new pages (none: copy the current page),
   * the undo history and the notifications sent so far.
   */
  datatype Controller = Controller(
    doc: Document,
    currentPage: nat,
    pageTypeForNewPages: Option<PageType>,
    history: seq<UndoAction>,
    events: seq<Event>)
  {
    function CurrentPage(): Option<Page> { doc.PageAt(currentPage) }
  }

  /** The result of inserting a new page: the state afterwards and where the page went, if it was inserted. */
  datatype Inserted = Inserted(state: Controller, position: Option<nat>)

  /**
   * A PDF background: refused when the document has no PDF pages; otherwise the page
   * picked in the dialog becomes the background and gives the page its size. A pick
   * past the last PDF page (a cancelled dialog) changes nothing and still succeeds.
   */
  function ApplyPdfBackground(pdfPages: seq<PdfPage>, page: Page, selected: nat): (r: Applied)
    ensures r.ok <==> |pdfPages| > 0
    ensures |pdfPages| == 0 ==> r.page == page && r.events == [ErrorShown(NoPdfPages)]
    ensures selected >= |pdfPages| ==> r.page == page
    ensures selected < |pdfPages| ==>
      && r.page.pdfPageNr == selected
      && r.page.bgType.IsPdfPage()
      && r.page.width == pdfPages[selected].width
      && r.page.height == pdfPages[selected].height
      && r.page.image == page.image
      && r.page.color == page.color
      && r.events == []
  {
    if |pdfPages| == 0 then
      Applied(false, page, [ErrorShown(NoPdfPages)])
    else if selected < |pdfPages| then
      var pdf := pdfPages[selected];
      Applied(true, page.SetBackgroundPdfPageNr(selected).SetSize(pdf.width, pdf.height), [])
    else
      Applied(true, page, [])
  }

  /**
   * The last step of the image path: a page whose image has a pixbuf takes the pixbuf's
   * size, and a page that is in the document announces its new size.
   */
  function FitToPixbuf(page: Page, index: Option<nat>): Applied {
    match page.image.Pixbuf()
    case None => Applied(true, page, [])
    case Some(px) =>
      Applied(true, page.SetSize(px.width as real, px.height as real),
              if index.Some? then [PageSizeChanged(index.value)] else [])
  }

  function WithImage(page: Page, img: BackgroundImage): Page {
    page.SetBackgroundImage(img).SetBackgroundType(IMAGE_TYPE)
  }

  /**
   * An image background: the image picked in the images dialog, or else the file from
   * the file chooser when the user asked for it. A cancelled file chooser or a file that
   * does not load leaves the page as it was and fails; a dialog that yields neither an
   * image nor a file-chooser request succeeds without touching the image. Whatever
   * image the page then has decides its size when it has a pixbuf. `index` is where the
   * page sits in the document, if it is already in it.
   */
  function ApplyImageBackground(page: Page, index: Option<nat>, choice: ImageChoice): (r: Applied)
    ensures r.ok <==> !choice.Aborts()
    ensures !r.ok ==> r.page == page
    ensures r.page.pdfPageNr == page.pdfPageNr && r.page.color == page.color
    ensures r.ok && !choice.selected.IsEmpty() ==>
      r.page.image == choice.selected && r.page.bgType == IMAGE_TYPE
    ensures r.ok && choice.selected.IsEmpty() && choice.showFileChooser ==>
      r.page.image == Loaded(choice.file.load.data, choice.file.attach) && r.page.bgType == IMAGE_TYPE
    ensures r.ok && choice.selected.IsEmpty() && !choice.showFileChooser ==>
      r.page.image == page.image && r.page.bgType == page.bgType
    ensures r.ok && r.page.image.Pixbuf().Some? ==>
      r.page.width == r.page.image.Pixbuf().value.width as real
      && r.page.height == r.page.image.Pixbuf().value.height as real
    ensures r.page.image.Pixbuf().None? ==> r.page.width == page.width && r.page.height == page.height
    ensures forall n: nat :: PageSizeChanged(n) in r.events <==>
      r.ok && index == Some(n) && r.page.image.Pixbuf().Some?
    ensures choice.selected.IsEmpty() && choice.showFileChooser && choice.file.FileChosen? && choice.file.load.LoadError? ==>
      r.events == [ErrorShown(ImageNotLoaded(choice.file.load.message))]
  {
    if !choice.selected.IsEmpty() then
      FitToPixbuf(WithImage(page, choice.selected), index)
    else if choice.showFileChooser then
      match choice.file
      case FileCancelled => Applied(false, page, [])
      case FileChosen(attach, LoadError(msg)) => Applied(false, page, [ErrorShown(ImageNotLoaded(msg))])
      case FileChosen(attach, LoadOk(data)) => FitToPixbuf(WithImage(page, Loaded(data, attach)), index)
    else
      FitToPixbuf(page, index)
  }

  /**
   * Applies a background type to a page: PDF and image types go through the user's
   * choice, every other type is set directly and always succeeds. The colour is never
   * touched, and a failed apply leaves the page as it was.
   */
  function ApplyPageBackground(pdfPages: seq<PdfPage>, page: Page, index: Option<nat>, pt: PageType, choice: UserChoice): (r: Applied)
    ensures pt.IsPattern() ==> r.ok && r.page == page.(bgType := pt) && r.events == []
    ensures pt.IsPdfPage() ==> r == ApplyPdfBackground(pdfPages, page, choice.pdfPage)
    ensures pt.IsImagePage() ==> r == ApplyImageBackground(page, index, choice.image)
    ensures r.page.color == page.color
    ensures !r.ok ==> r.page == page
  {
    if pt.IsPdfPage() then
      ApplyPdfBackground(pdfPages, page, choice.pdfPage)
    else if pt.IsImagePage() then
      ApplyImageBackground(page, index, choice.image)
    else
      Applied(true, page.SetBackgroundType(pt), [])
  }

  /**
   * Changes the background of page `n` and returns the undo record. A missing page is a
   * no-op without a record. Otherwise the record holds the page's width, height, image,
   * PDF page number and type from before the change, and the page-changed and
   * size-button notifications follow, whether or not the apply step succeeded.
   */
  function CommitPageTypeChange(doc: Document, n: nat, pt: PageType, choice: UserChoice): (r: Committed)
    ensures |r.doc.pages| == |doc.pages| && r.doc.pdfPages == doc.pdfPages
    ensures n >= |doc.pages| ==> r == Committed(doc, None, [])
    ensures n < |doc.pages| ==>
      var before := doc.pages[n];
      var applied := ApplyPageBackground(doc.pdfPages, before, Some(n), pt, choice);
      && r.record.Some?
      && r.record.value.page == n
      && r.record.value.origWidth == before.width
      && r.record.value.origHeight == before.height
      && r.record.value.origImage == before.image
      && r.record.value.origPdfPage == before.pdfPageNr
      && r.record.value.origType == before.bgType
      && r.doc.pages[n] == applied.page
      && r.events == applied.events + [PageChanged(n), BackgroundSizeButtonUpdated]
    ensures forall i :: 0 <= i < |doc.pages| && i != n ==> r.doc.pages[i] == doc.pages[i]
  {
    match doc.PageAt(n)
    case None => Committed(doc, None, [])
    case Some(page) =>
      var record := Snapshot(n, page);
      var applied := ApplyPageBackground(doc.pdfPages, page, Some(n), pt, choice);
      Committed(doc.WithPage(n, applied.page), Some(record), applied.events + [PageChanged(n), BackgroundSizeButtonUpdated])
  }

  /**
   * `r` is `c` after `pt` was applied to every page with the answers `choose`: each page
   * is its own apply result, and exactly one group action was pushed whose members are
   * the pages' snapshots from before, in page order; writing them back gives the old document.
   */
  predicate AppliedToAllPages(c: Controller, r: Controller, pt: PageType, choose: nat -> UserChoice) {
    && |r.doc.pages| == |c.doc.pages| && r.doc.pdfPages == c.doc.pdfPages
    && (forall i :: 0 <= i < |c.doc.pages| ==>
          r.doc.pages[i] == ApplyPageBackground(c.doc.pdfPages, c.doc.pages[i], Some(i), pt, choose(i)).page)
    && |r.history| == |c.history| + 1 && r.history[..|c.history|] == c.history
    && r.history[|c.history|].GroupUndo?
    && |r.history[|c.history|].members| == |c.doc.pages|
    && (forall i :: 0 <= i < |c.doc.pages| ==> r.history[|c.history|].members[i] == Snapshot(i, c.doc.pages[i]))
    && RestoreAll(r.doc, r.history[|c.history|].members) == c.doc
    && r.currentPage == c.currentPage && r.pageTypeForNewPages == c.pageTypeForNewPages
  }

  /**
   * Applies `pt` to every page in order, asking the user once per page when the type
   * needs a choice (`choose(i)` is the answer given for page `i`), and pushes one group
   * undo action holding the records of all pages in page order, even when there are none.
   */
  method ApplyBackgroundToAllPages(c: Controller, pt: PageType, choose: nat -> UserChoice) returns (r: Controller)
    ensures AppliedToAllPages(c, r, pt, choose)
    ensures pt.IsPattern() ==> forall i :: 0 <= i < |c.doc.pages| ==> r.doc.pages[i] == c.doc.pages[i].(bgType := pt)
    ensures pt.IsPdfPage() && |c.doc.pdfPages| == 0 ==> r.doc.pages == c.doc.pages
  {
    var doc := c.doc;
    var group: seq<BackgroundChange> := [];
    var events := c.events;
    var p := 0;
    while p < |doc.pages|
      invariant 0 <= p <= |c.doc.pages|
      invariant |doc.pages| == |c.doc.pages| && doc.pdfPages == c.doc.pdfPages
      invariant forall i :: 0 <= i < p ==>
        doc.pages[i] == ApplyPageBackground(c.doc.pdfPages, c.doc.pages[i], Some(i), pt, choose(i)).page
      invariant forall i :: p <= i < |doc.pages| ==> doc.pages[i] == c.doc.pages[i]
      invariant |group| == p
      invariant forall i :: 0 <= i < p ==> group[i] == Snapshot(i, c.doc.pages[i])
    {
      var out := CommitPageTypeChange(doc, p, pt, choose(p));
      if out.record.Some? {
        group := group + [out.record.value];
      }
      doc := out.doc;
      events := events + out.events;
      p := p + 1;
    }
    RestoreAllRecoversDocument(c.doc, doc, pt, choose, group);
    r := c.(doc := doc, history := c.history + [GroupUndo(group)], events := events);
  }

  /**
   * Writing back the snapshots of a batch onto the batched document gives the document
   * from before the batch.
   */
  lemma RestoreAllRecoversDocument(before: Document, after: Document, pt: PageType, choose: nat -> UserChoice, group: seq<BackgroundChange>)
    requires |after.pages| == |before.pages| == |group| && after.pdfPages == before.pdfPages
    requires forall i :: 0 <= i < |before.pages| ==>
      after.pages[i] == ApplyPageBackground(before.pdfPages, before.pages[i], Some(i), pt, choose(i)).page
    requires forall i :: 0 <= i < |group| ==> group[i] == Snapshot(i, before.pages[i])
    ensures RestoreAll(after, group) == before
  {
    RestoreSuffix(before, after, group, 0);
  }

  lemma {:induction false} RestoreSuffix(before: Document, d: Document, group: seq<BackgroundChange>, k: nat)
    requires k <= |group| == |before.pages| == |d.pages| && d.pdfPages == before.pdfPages
    requires forall i :: 0 <= i < |group| ==> group[i].page == i
    requires forall i :: 0 <= i < k ==> d.pages[i] == before.pages[i]
    requires forall i :: k <= i < |group| ==> RestoreSnapshot(d.pages[i], group[i]) == before.pages[i]
    ensures RestoreAll(d, group[k..]) == before
    decreases |group| - k
  {
    if k == |group| {
      assert group[k..] == [];
      assert d.pages == before.pages;
    } else {
      var d' := RestoreInDocument(d, group[k]);
      assert group[k..][1..] == group[k + 1..];
      RestoreSuffix(before, d', group, k + 1);
    }
  }

  /** Applies the current page's background type to every page. */
  method ApplyCurrentPageBackgroundToAll(c: Controller, choose: nat -> UserChoice) returns (r: Controller)
    requires c.CurrentPage().Some?
    ensures AppliedToAllPages(c, r, c.doc.pages[c.currentPage].bgType, choose)
    ensures var pt := c.doc.pages[c.currentPage].bgType;
      pt.IsPattern() ==> forall i :: 0 <= i < |c.doc.pages| ==> r.doc.pages[i] == c.doc.pages[i].(bgType := pt)
  {
    var pt := c.doc.pages[c.currentPage].bgType;
    r := ApplyBackgroundToAllPages(c, pt, choose);
  }

  /**
   * Changes the current page's background. Without a current page nothing happens;
   * otherwise exactly one single-page record, capturing the page as it was, is pushed.
   */
  function ChangeCurrentPageBackground(c: Controller, pt: PageType, choice: UserChoice): (r: Controller)
    ensures c.CurrentPage().None? ==> r == c
    ensures |r.doc.pages| == |c.doc.pages| && r.doc.pdfPages == c.doc.pdfPages
    ensures c.CurrentPage().Some? ==>
      && |r.history| == |c.history| + 1
      && r.history[..|c.history|] == c.history
      && r.history[|c.history|] == PageBackgroundChanged(Snapshot(c.currentPage, c.doc.pages[c.currentPage]))
      && r.doc.pages[c.currentPage] == ApplyPageBackground(c.doc.pdfPages, c.doc.pages[c.currentPage], Some(c.currentPage), pt, choice).page
    ensures forall i :: 0 <= i < |c.doc.pages| && i != c.currentPage ==> r.doc.pages[i] == c.doc.pages[i]
    ensures r.currentPage == c.currentPage && r.pageTypeForNewPages == c.pageTypeForNewPages
  {
    match c.CurrentPage()
    case None => c
    case Some(_) =>
      var out := CommitPageTypeChange(c.doc, c.currentPage, pt, choice);
      var history := if out.record.Some? then c.history + [PageBackgroundChanged(out.record.value)] else c.history;
      c.(doc := out.doc, history := history, events := c.events + out.events)
  }

  /** Configures (or clears) the background type new pages get; nothing else changes. */
  function SetPageTypeForNewPages(c: Controller, pt: Option<PageType>): (r: Controller)
    ensures r.pageTypeForNewPages == pt
    ensures r.doc == c.doc && r.history == c.history && r.currentPage == c.currentPage && r.events == c.events
  {
    c.(pageTypeForNewPages := pt)
  }

  /**
   * Copies the resolved background of `source` onto `target`: size and type always, then
   * the PDF page number for a PDF type, the image for an image type, the colour otherwise.
   */
  function CopyBackgroundFromOtherPage(target: Page, source: Page): (r: Page)
    ensures r.width == source.width && r.height == source.height && r.bgType == source.bgType
    ensures r.pdfPageNr == (if source.bgType.IsPdfPage() then source.pdfPageNr else target.pdfPageNr)
    ensures r.image == (if source.bgType.IsImagePage() then source.image else target.image)
    ensures r.color == (if source.bgType.IsPattern() then source.color else target.color)
  {
    var bg := source.bgType;
    var t := target.SetSize(source.width, source.height).SetBackgroundType(bg);
    if bg.IsPdfPage() then t.SetBackgroundPdfPageNr(source.pdfPageNr)
    else if bg.IsImagePage() then t.SetBackgroundImage(source.image)
    else t.SetBackgroundColor(source.color)
  }

  /** Where a new page goes: the requested position, but never past the end. */
  function ClampPosition(position: nat, count: nat): (r: nat)
    ensures r <= count
    ensures r == position || (position > count && r == count)
  {
    if position > count then count else position
  }

  /** The background step of a new page built from the configured type. */
  function TemplateApplied(c: Controller, t: PageTemplate, pt: PageType, choice: UserChoice): Applied {
    ApplyPageBackground(c.doc.pdfPages, NewPage(t.pageWidth, t.pageHeight), None, pt, choice)
  }

  /** Whether building the new page reads the current page (the program dereferences it unchecked). */
  predicate NeedsCurrentPage(c: Controller, t: PageTemplate, choice: UserChoice) {
    match c.pageTypeForNewPages
    case None => true
    case Some(pt) => t.copyLastPageSize && TemplateApplied(c, t, pt, choice).ok
  }

  /**
   * Builds a new page and inserts it at `position`, clamped to the page count. Without a
   * configured type the new page copies the current page's background and size. With
   * one, the type is applied (a failed choice inserts nothing), the template's colour is
   * set, and the size is the current page's only when the template asks for it.
   */
  function InsertNewPage(c: Controller, position: nat, t: PageTemplate, choice: UserChoice): (r: Inserted)
    requires NeedsCurrentPage(c, t, choice) ==> c.CurrentPage().Some?
    ensures r.position.None? <==>
      c.pageTypeForNewPages.Some? && !TemplateApplied(c, t, c.pageTypeForNewPages.value, choice).ok
    ensures r.position.None? ==> r.state.doc == c.doc
    ensures r.position.Some? ==>
      var pos := r.position.value;
      && pos == ClampPosition(position, |c.doc.pages|)
      && |r.state.doc.pages| == |c.doc.pages| + 1
      && r.state.doc.pages[..pos] == c.doc.pages[..pos]
      && r.state.doc.pages[pos + 1..] == c.doc.pages[pos..]
    ensures r.position.Some? && c.pageTypeForNewPages.None? ==>
      var p := r.state.doc.pages[r.position.value];
      var cur := c.doc.pages[c.currentPage];
      && p.width == cur.width && p.height == cur.height && p.bgType == cur.bgType
      && (cur.bgType.IsPdfPage() ==> p.pdfPageNr == cur.pdfPageNr)
      && (cur.bgType.IsImagePage() ==> p.image == cur.image)
      && (cur.bgType.IsPattern() ==> p.color == cur.color)
    ensures r.position.Some? && c.pageTypeForNewPages.Some? ==>
      var p := r.state.doc.pages[r.position.value];
      var applied := TemplateApplied(c, t, c.pageTypeForNewPages.value, choice);
      && p.color == t.backgroundColor
      && p.bgType == applied.page.bgType && p.image == applied.page.image && p.pdfPageNr == applied.page.pdfPageNr
      && (t.copyLastPageSize ==> p.width == c.doc.pages[c.currentPage].width && p.height == c.doc.pages[c.currentPage].height)
      && (!t.copyLastPageSize ==> p.width == applied.page.width && p.height == applied.page.height)
    ensures r.state.doc.pdfPages == c.doc.pdfPages && r.state.history == c.history
    ensures r.state.pageTypeForNewPages == c.pageTypeForNewPages
  {
    var pos := ClampPosition(position, |c.doc.pages|);
    var blank := NewPage(t.pageWidth, t.pageHeight);
    match c.pageTypeForNewPages
    case None =>
      var page := CopyBackgroundFromOtherPage(blank, c.doc.pages[c.currentPage]);
      Inserted(InsertPage(c, page, pos), Some(pos))
    case Some(pt) =>
      var applied := TemplateApplied(c, t, pt, choice);
      if !applied.ok then
        Inserted(c.(events := c.events + applied.events), None)
      else
        var colored := applied.page.SetBackgroundColor(t.backgroundColor);
        var page := if t.copyLastPageSize
          then colored.SetSize(c.doc.pages[c.currentPage].width, c.doc.pages[c.currentPage].height)
          else colored;
        Inserted(InsertPage(c.(events := c.events + applied.events), page, pos), Some(pos))
  }

  /**
   * Puts a finished page into the document at `pos`: the page sits at `pos`, and taking
   * it out again leaves the old page sequence.
   */
  function InsertPage(c: Controller, page: Page, pos: nat): (r: Controller)
    requires pos <= |c.doc.pages|
    ensures |r.doc.pages| == |c.doc.pages| + 1 && r.doc.pages[pos] == page
    ensures r.doc.pages[..pos] + r.doc.pages[pos + 1..] == c.doc.pages
    ensures r.doc.pdfPages == c.doc.pdfPages && r.history == c.history && r.pageTypeForNewPages == c.pageTypeForNewPages
    ensures r.currentPage == c.currentPage && r.events == c.events
  {
    c.(doc := c.doc.(pages := c.doc.pages[..pos] + [page] + c.doc.pages[pos..]))
  }
}
