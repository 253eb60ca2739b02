# Page background changes in Xournal++

A Dafny model of Xournal++'s `PageBackgroundChangeController`: the code that changes
the background of a journal page (a drawn pattern, a page of the annotated PDF, or an
image), captures the page's prior state in an undo record, applies one background type
to every page under a single group undo action, copies a background from one page to
another, and builds and inserts a new page from the current page or the page template.

The model is functional. A page is an immutable record (width, height, background
type, PDF page number, background image, background colour). A document is the
sequence of pages plus the sizes of the imported PDF pages. The controller state holds
the document, the current page index, the background type configured for new pages,
the undo history and a log of the notifications sent. Each dialog the program would
show is replaced by an input describing the user's answer: the PDF page picked, the
image picked in the images dialog, whether the file chooser was requested, and what
the file chooser and the image loader returned. A batch over all pages takes one
answer per page, because the program shows the dialog once per page.

Files:
- `pages.dfy`: `Options` and `Pages` (page, background type, image, document).
- `selection.dfy`: `Selection`, the dialog answers.
- `undo.dfy`: `Undo`, the undo record as a snapshot and the group as a sequence of records.
- `controller.dfy`: `PageBackgroundChangeController`, the operations.
- `properties.dfy`: `BackgroundProperties`, lemmas relating the operations.

## Behaviour to note

Line numbers here refer to `src/core/control/PageBackgroundChangeController.cpp`.

- A cancelled or failed change still returns an undo record and sends the page-changed
  notification: `commitPageTypeChange` ignores the result of `applyPageBackground`
  (`FailedApplyStillCommits`, lines 107-113).
- `applyBackgroundToAllPages` pushes the group action even when it is empty (line 55).
- `applyPdfBackground` returns success when the picked index is past the last PDF page,
  which is what a cancelled dialog reports (`PdfPickPastEndSucceedsUnchanged`, lines
  200-208). So a new page built from a PDF template is still inserted after such a
  cancel (`PdfTemplatePickPastEndStillInserts`).
- `applyImageBackground` returns success when the images dialog yields no image and no
  file-chooser request, and it still resizes the page to the pixbuf of the image the
  page already had (`ImageDialogWithoutChoiceSucceeds`, lines 131-173).
- `applyCurrentPageBackgroundToAll` reads the current page's type without checking that
  there is a current page (line 61), unlike `changeCurrentPageBackground` (line 69).

## Assumptions

About code that is not part of this model (`XojPage`, `PageType`, `Document`,
`Control`, `PdfPagesDialog`):
- The page setters assign one field each, except `setBackgroundPdfPageNr`, which also
  makes the type's format PDF, as the comment at line 201 says. The type's configuration
  string is kept as it was, so a page copied from a PDF page gets exactly the source's type.
- `doc->indexOf(page)` returns the index the page was fetched from, so pages are
  identified by index.
- A freshly constructed page has a `Lined` type, no PDF page (`size_t(-1)`), no image and
  a white background.
- `control->insertPage` puts the page into the page sequence at the given position.
- A cancelled PDF pages dialog reports an index past the last PDF page (`PdfPagesDialog`
  is not part of this model); any such index behaves the same in the controller.

## Model

| member | source | states |
|---|---|---|
| PageBackgroundChangeController.ApplyPdfBackground | src/core/control/PageBackgroundChangeController.cpp:181-209 | Fails with the "no PDF pages" error and leaves the page unchanged when the document has no PDF pages. Otherwise it succeeds. A pick below the PDF page count makes that page the PDF background and copies its size, keeping image and colour. A pick past the end changes nothing. |
| PageBackgroundChangeController.ApplyImageBackground | src/core/control/PageBackgroundChangeController.cpp:121-174 | Fails, with the page unchanged, exactly when nothing was picked, the file chooser was requested, and it was cancelled or the file failed to load. A load failure shows the error message. A picked or loaded image, with its attach flag, becomes the background with the Image type. Whenever the resulting image has a pixbuf, the page takes the pixbuf's size. A size notification is sent exactly when that happens to a page already in the document. |
| PageBackgroundChangeController.ApplyPageBackground | src/core/control/PageBackgroundChangeController.cpp:216-227 | A type that is neither PDF nor image is set directly: success, and only the type changes. PDF and image types go to their own paths. The colour never changes, and a failure leaves the page unchanged. |
| PageBackgroundChangeController.CommitPageTypeChange | src/core/control/PageBackgroundChangeController.cpp:89-114 | A missing page gives no record, no notification and an unchanged document. Otherwise the record holds the page's prior width, height, image, PDF page number and type. Only that page changes, to the apply result. The page-changed and size-button notifications follow whatever the apply returned. |
| PageBackgroundChangeController.ApplyBackgroundToAllPages | src/core/control/PageBackgroundChangeController.cpp:41-58 | Every page becomes its own apply result, and exactly one group action is pushed. The group holds one record per page, in page order, each capturing that page before the batch. It is pushed even when empty. A pattern type changes only each page's type. A PDF type without PDF pages changes no page. Writing the group's records back gives the pre-batch document. |
| PageBackgroundChangeController.RestoreAllRecoversDocument | src/core/control/PageBackgroundChangeController.cpp:46-55 | Writing back the records the batch collected onto the batched document yields the document from before the batch. |
| PageBackgroundChangeController.ApplyCurrentPageBackgroundToAll | src/core/control/PageBackgroundChangeController.cpp:60-63 | The current page's type is applied to every page, with all of the batch's guarantees: each page becomes its own apply result, the earlier history is kept, one group action is pushed whose members are the pages' prior snapshots in page order, and writing them back gives the old document. For a pattern type, only the types change. |
| PageBackgroundChangeController.InsertPage | src/core/control/PageBackgroundChangeController.cpp:285 | The assumed effect of `Control::insertPage`: the page count grows by one, the new page sits at the given position, and taking it out again leaves the old page sequence. The rest of the state is kept. |
| PageBackgroundChangeController.ChangeCurrentPageBackground | src/core/control/PageBackgroundChangeController.cpp:65-83 | Without a current page, nothing changes. Otherwise exactly one single-page record is pushed, capturing the current page as it was. The current page becomes the apply result and no other page changes. |
| PageBackgroundChangeController.SetPageTypeForNewPages | src/core/control/PageBackgroundChangeController.cpp:85-87 | Stores the configured type for new pages, or clears it. The document, history, current page and notifications stay as they were. |
| PageBackgroundChangeController.CopyBackgroundFromOtherPage | src/core/control/PageBackgroundChangeController.cpp:232-250 | The target takes the source's size and type. It takes the PDF page number only for a PDF type, the image only for an image type, and the colour only otherwise. Every other field keeps the target's value. |
| PageBackgroundChangeController.ClampPosition | src/core/control/PageBackgroundChangeController.cpp:256-258 | The insert position is the requested one, or the page count when the request is past the end. It is never past the end. |
| PageBackgroundChangeController.InsertNewPage | src/core/control/PageBackgroundChangeController.cpp:252-286 | Nothing is inserted exactly when a type is configured for new pages and applying it fails. Otherwise one page is inserted at the clamped position and the other pages keep their order. Without a configured type, the page copies the current page's size, type and type payload. With one, the page gets the applied background and the template colour. Its size is the current page's when the template asks for that, and the apply result's otherwise. |
| BackgroundProperties.CommitRecordRecoversDocument | src/core/control/PageBackgroundChangeController.cpp:100-113 | The record of a commit covers every field the commit can change: writing it back onto the committed document gives the original document. |
| BackgroundProperties.CopyCarriesResolvedBackground | src/core/control/PageBackgroundChangeController.cpp:232-250 | After a copy, the target draws exactly like the source: same size, same type, same payload for that type. |
| BackgroundProperties.CopyBackgroundIdempotent | src/core/control/PageBackgroundChangeController.cpp:232-250 | Copying the same source twice gives the same page as copying it once. |
| BackgroundProperties.PatternApplyIdempotent | src/core/control/PageBackgroundChangeController.cpp:216-227 | Applying a pattern type to a page that already has it succeeds and changes nothing. |
| BackgroundProperties.FailedApplyStillCommits | src/core/control/PageBackgroundChangeController.cpp:107-113 | A commit whose apply step failed leaves the document unchanged but still returns a record of the page and still sends the page-changed notification. |
| BackgroundProperties.PdfPickPastEndSucceedsUnchanged | src/core/control/PageBackgroundChangeController.cpp:198-208 | With PDF pages present, a pick past the last one returns success, leaves the page unchanged and sends nothing. |
| BackgroundProperties.ImageDialogWithoutChoiceSucceeds | src/core/control/PageBackgroundChangeController.cpp:131-173 | With no image picked and no file chooser requested, the image path succeeds and keeps type and image. The page is resized to the pixbuf of the image it already had, if that image has one, and is otherwise unchanged. |
| BackgroundProperties.InsertedPageCopiesCurrent | src/core/control/PageBackgroundChangeController.cpp:263-268 | With no configured type, a page is always inserted, and it draws exactly like the current page. |
| BackgroundProperties.PdfTemplatePickPastEndStillInserts | src/core/control/PageBackgroundChangeController.cpp:270-285 | With a PDF type configured and a pick past the last PDF page, a page is still inserted. It keeps the blank page's non-PDF type. |
| BackgroundProperties.PdfTemplateWithoutPdfInsertsNothing | src/core/control/PageBackgroundChangeController.cpp:184-190 | With a PDF type configured and no PDF pages, no page is inserted, the document is unchanged, and the "no PDF pages" error is shown. |

## Left out

- The dialogs (`ImagesDialog`, `PdfPagesDialog`, `ImageOpenDlg`) and the message box: replaced by the user's answers as inputs, and by an `ErrorShown` notification.
- Image decoding and file loading: an image is an identity, optional pixbuf dimensions and an attach flag; a load either yields such an image or an error message.
- `doc->lock()`/`unlock()`, `clearSelectionEndText`, the menu's `setSelected` calls and the scroll-to-page flag of `insertNewPage`: locking and UI side effects with no effect on the document.
- The empty listener overrides and `pageSelected` (lines 288-305): they only mirror the current page's type into the menu.
- Undo and redo behaviour: `PageBackgroundChangedUndoAction` and `GroupUndoAction` are not part of this model. A record is only the snapshot it holds, and a group is a sequence of records. `RestoreSnapshot` writes the snapshot's fields back; it is not a claim about what undo does.
- `Control::insertPage` also notifies listeners and may record its own undo action; only the insertion into the page sequence is modelled.
- Page sizes are doubles that are only copied; they are modelled as `real`. Pixbuf dimensions become reals exactly.
- PageBackgroundChangeController.ApplyCurrentPageBackgroundToAll: requires a current page. The source dereferences `control->getCurrentPage()` unchecked at line 61, so without one the program crashes; that input is not modelled.
- PageBackgroundChangeController.InsertNewPage: requires a current page whenever the new page is built from it: always without a configured type (line 267 only asserts it) and, with one, when the template copies the last page's size and the apply succeeded (line 280). The null dereference these inputs cause is not modelled.
- `xoj_assert(pageNr != npos)` after `indexOf`: with pages identified by index it always holds.
- `InsertNewPage`'s notifications: the inserted-page notification comes from `Control::insertPage`, which is not part of this model. The log only records notifications sent by the apply step.
