# PDFusion page editor and export layout, in Dafny

PDFusion is a single-view web tool that turns photographs into a PDF. The user
imports images, each becoming a page. Pages can be reordered, duplicated,
deleted and captioned, and the list is then exported as a PDF with one image
(and optional caption) per sheet.

This project models the two parts of `src/app/page.tsx` that are logic rather
than rendering:

- **The page collection editor.** The view state is an ordered `seq<Page>`
  (`id`, `image`, `text`) plus the selected id, the caption dialog's open flag
  and its draft text (`Model.State`). Each event handler is a pure transition
  on that state (module `Editor`): import, delete, duplicate, move left/right,
  open/type/cancel/save caption, and thumbnail selection. Module `EditorProps`
  proves that every transition keeps the view invariant `Model.Valid`:
  - ids are distinct and non-empty;
  - a page is selected exactly when pages exist;
  - the selected id belongs to a page.

  It also proves the inverse pairs: deleting a duplicate's copy, and moving
  left then right.
- **The export.** Module `Layout` covers the per-page arithmetic of
  `generatePdf` over exact reals: the available box, the aspect-preserving fit,
  horizontal centring and the caption position. Module `Export` covers the
  document loop: empty lists are refused, the first sheet is implicit, and one
  sheet is added per later page. Each sheet is described by the drawing calls
  made on it.

Module `Scenario` walks through one session: import two images, caption the
second, duplicate the first, and export three sheets.

JavaScript truthiness is modelled explicitly:

- `selectedPageId` is falsy for both `null` and `""`, so `if (!selectedPageId)`
  fires for both (`Model.IsSet` is false for both).
- `if (page.text)` is false only for the empty caption (`Export.Captioned`).

Behaviours of `page.tsx` worth noting, all modelled as the code has them:

- An import selects the first page of the combined list whenever nothing is
  selected beforehand, whether or not pages already existed.
- Delete filters the list by id, so every page carrying that id goes.
- Saving a caption writes to every page whose id is the selected id; the save
  takes no page argument.
- The image is centred on the full page width. With symmetric margins this is
  the same as centring inside the available width.

## Model

| member | source | states |
|---|---|---|
| Model.FindIndex | src/app/page.tsx:75 | the result is -1 exactly when no page has the id; otherwise it is the first index whose page has it |
| Model.SelectedPage | src/app/page.tsx:29-31 | a page is found exactly when a selection exists and some page has that id; the page found has the selected id and is the first such page (the one at `FindIndex`, at or before every other page with that id) |
| Editor.Import | src/app/page.tsx:33-57 | no files: nothing changes. Otherwise the old pages stay first, then one page per file in file order, each with its id, its image and an empty caption. With nothing selected, the selection becomes the first page of the combined list; an existing selection is kept |
| EditorProps.ImportKeepsValid | src/app/page.tsx:37-56 | with fresh, distinct, non-empty ids, an import keeps the view invariant |
| Editor.Delete | src/app/page.tsx:64-72 | the pages become the filter `Editor.Without` of the old list, so the kept pages keep their order; no page with the id remains and the list does not grow; an unknown id leaves the pages unchanged. A selected deleted id passes to the first remaining page, or to none when the list is empty; any other selection is unchanged |
| Editor.Without | src/app/page.tsx:66 | the filter keeps no page with the deleted id and never lengthens the list |
| Editor.WithoutAppend | src/app/page.tsx:66 | filtering distributes over concatenation, so the kept pages keep their relative order |
| Editor.WithoutAt | src/app/page.tsx:66 | with distinct ids, filtering out the id of the page at index k leaves exactly the pages before and after k |
| Editor.DeleteAt | src/app/page.tsx:64-71 | on a valid state, deleting the page at index k leaves the other pages in order. If it was selected, the selection becomes the new first page (index 1 when k is 0), or none when it was the only page |
| EditorProps.DeleteKeepsValid | src/app/page.tsx:64-71 | a delete keeps the view invariant, including the selection repair |
| Editor.Duplicate | src/app/page.tsx:74-83 | for a known id at index i: one page longer, a copy of page i with the new id inserted at i+1, pages up to i unchanged, the old tail shifted by one. An unknown id changes nothing. The selection is unchanged |
| EditorProps.DuplicateKeepsDistinct | src/app/page.tsx:74-83 | distinct ids stay distinct when the new id is not in use |
| EditorProps.DuplicateKeepsValid | src/app/page.tsx:74-83 | with an unused non-empty new id, a duplicate keeps the view invariant |
| EditorProps.DeleteUndoesDuplicate | src/app/page.tsx:64-83 | deleting the copy a duplicate just made restores the whole state |
| Editor.Swap | src/app/page.tsx:91 | the two positions exchange their pages; every other position is unchanged and the multiset of pages is the same |
| Editor.Move | src/app/page.tsx:85-94 | the pages are always a permutation of the old ones. With a neighbour in range, the page and that neighbour swap and nothing else moves. An unknown id, left at index 0 or right at the last index changes nothing |
| EditorProps.MoveIsSwap | src/app/page.tsx:86-92 | a move with an in-range target is the swap of the page and its neighbour |
| EditorProps.MoveKeepsValid | src/app/page.tsx:85-94 | a move keeps the view invariant |
| EditorProps.MoveLeftThenRight | src/app/page.tsx:85-94 | with distinct ids, moving a page left and then right restores the state |
| EditorProps.MoveRightThenLeft | src/app/page.tsx:85-94 | with distinct ids, moving a page right and then left restores the state |
| Editor.SelectPage | src/app/page.tsx:246 | clicking thumbnail k selects its page: afterwards the selected page exists and has page k's id (and is page k when ids are distinct); the selection is truthy exactly when that id is non-empty; nothing else changes |
| Editor.OpenTextEditor | src/app/page.tsx:96-101 | with a selected page, the dialog opens holding that page's caption; otherwise nothing changes |
| Editor.SaveText | src/app/page.tsx:103-108 | with a selection, the pages with the selected id take the draft as caption. Ids, images, order, length and every other caption are unchanged. With no selection the pages are unchanged. The dialog always closes |
| Editor.EditDraft | src/app/page.tsx:279 | typing in the caption box sets the draft to the typed text; pages, selection and the dialog flag are unchanged |
| Editor.CancelText | src/app/page.tsx:276-281 | dismissing the dialog (Cancel or any other close) closes it and leaves pages, selection and draft as they were, so nothing is committed |
| EditorProps.SaveCommitsDraft | src/app/page.tsx:103-108 | after a save, the selected page's caption is the draft |
| EditorProps.OpenThenSaveKeepsPages | src/app/page.tsx:96-108 | on a valid state, opening the dialog and saving without typing changes no page |
| EditorProps.CaptionAndSelectKeepValid | src/app/page.tsx:96-281 | opening, typing in, cancelling and saving the caption dialog keep the view invariant, as does selecting a thumbnail |
| Layout.Fit | src/app/page.tsx:140-150 | the fitted extent is positive and within the available box. It has the image's width/height ratio and fills the box in at least one dimension: the full width when the image ratio exceeds the box ratio, the full height otherwise |
| Layout.FitIsLargest | src/app/page.tsx:140-150 | no extent with the image's ratio that fits the box is wider or taller than the fitted one |
| Layout.PlaceImage | src/app/page.tsx:128-152 | the image sits at the top margin, centred horizontally (equal gaps left and right) and inside the side margins. It ends above the bottom margin, keeps the image's ratio, and on a captioned page ends at least one margin above the caption's first baseline |
| Export.RenderPage | src/app/page.tsx:136-159 | a sheet carries the page's image in the box `Layout.PlaceImage` chooses (fitted, centred, inside the margins). It carries a caption exactly when the page text is non-empty; the caption holds the page's text, spans the margins, has its first baseline at half the page height plus half a margin, and that baseline is at least one margin below the image |
| Export.GeneratePdf | src/app/page.tsx:111-122 | an empty list is refused with no document and no addPage call. Otherwise the document has one sheet per page in page order, page i's sheet is that page's rendering, and addPage is called once per page after the first |
| Scenario.ImportTwo | src/app/page.tsx:51-56 | importing two images into the empty view gives two uncaptioned pages with the first selected |
| Scenario.CaptionSecond | src/app/page.tsx:96-108 | selecting the second page, typing "Hello" and saving captions that page only |
| Scenario.DuplicateFirst | src/app/page.tsx:74-83 | duplicating the first page of that list gives the order 1, copy of 1, 2 |
| Scenario.ExportThree | src/app/page.tsx:120-159 | exporting those three pages on a nominal 210 × 297 mm A4 sheet gives three sheets; only the third carries a caption, at y = 153.5 mm with width 190 mm |

## Left out

- Reading files (`FileReader`, data-URL encoding) and loading images (`window.Image`) are browser I/O. An image is an opaque string. The pixel size each image loads with is a parameter of the export.
- An import where a file read fails is not modelled. In the source that promise never settles, so no page of the batch is added; the model assumes every read succeeds.
- Ids come from `Date.now()` and `Math.random()` and are nondeterministic. Operations take the new ids as parameters; freshness is a precondition of the invariant lemmas only.
- React behaviour is not modelled: state hooks, update batching, and the stale `pages`/`selectedPageId` captured by the import and delete handlers. Each handler is one atomic transition.
- The JSX rendering is not modelled, including disabling the move buttons at either end; `Editor.Move` is a no-op there anyway.
- The PDF library (jsPDF) is not part of this model. Its drawing calls are recorded as `Export.Item` values with the coordinates passed to them. The page size it reports for A4 in millimetres is a parameter.
- Not modelled: the font choice (`PT Sans`, 12 pt), the `'JPEG'` format argument, and `splitTextToSize` word wrapping. A caption item holds the unwrapped text and the wrap width, so a long caption that would run past the page bottom is not detected.
- Saving the file, the share sheet and its download fallback, the file name, toasts, and the `try`/`catch` error report are platform side effects and are left out.
- Layout.Fit: computed over exact reals, not IEEE-754 doubles, so the ratio and fit equalities hold exactly here and only up to rounding in the source.
- Layout.Fit: requires positive pixel dimensions. In the source a zero height gives an Infinity or NaN ratio, and a zero width gives a zero-width image at the page centre; the model excludes both.
- Layout.PlaceImage: requires that the page leaves a positive available box (true for A4). The source does not check this; it only uses the fixed A4 format.
- Export.GeneratePdf: requires positive image sizes and room on the page for every page, as `Layout.PlaceImage` does.
