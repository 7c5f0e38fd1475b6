# pictopdf: image layout and upload list, modelled in Dafny

pictopdf is a browser page. The user picks or drops image files. The page
keeps them in a list and, on request, stacks them into one PDF, one after
another from top to bottom, starting a new page when the next image does
not fit. This project models the two pieces of that page that hold logic:

- `layout.dfy`, module `PdfLayout`: the layout loop of `generatePDF`. Each
  image is scaled to the content width (page width minus two 10-unit
  margins), keeping its aspect ratio. A new page is started when the image
  does not fit below the cursor `currentY`, but only when the page already
  holds something. An image taller than the usable page height is shrunk to
  exactly that height. It is drawn at the left margin, at the cursor, and
  the cursor then moves down by its height plus a 10-unit gap. The PDF
  library calls (`addPage`, `addImage`) become emitted `Placement` records
  that carry a page number. `Run` is the loop as a function over prefixes of
  the image list. `GeneratePlan` is the loop itself, with `currentY` and the
  page counter as locals, and is proved equal to `Layout`. `OnLoad` is the
  `img.onload` callback that the loop awaits for each image.
- `uploads.dfy`, module `Uploads`: the `uploadedImages` list. It holds the
  type filter of `handleFiles` (`file.type.match('image.*')`), the loop that
  picks the files to read, and a class `ImageList` that holds the list and
  the two button flags. Its methods are append (the end of a file read),
  remove (`splice(index, 1)`), clear and `updateButtons`, and `Generate`
  models the entry to `generatePDF`.

The model proves the following. There is one placement per image, in
input order, and a prefix of the images gives a prefix of the plan. A
"valid page" is wider and taller than two margins, which holds for A4.
On any page size, every placement lies at the left margin and keeps its
image's aspect ratio, stated as `width * pixelHeight == height * pixelWidth`.
On a valid page, every placement lies inside the top and bottom margins of
its page. On a valid page, its width is
the content width exactly when the full-width image fits the usable height;
otherwise its height is the usable height. Page numbers start at 0, never decrease
and grow by at most one per image, so no page is left empty. On one page,
consecutive images are exactly one gap apart. On a valid page a new page
starts exactly when the next full-width image does not fit below the
cursor. Both worked examples on a 210 x 297 page hold: two squares land on
pages 0 and 1, each 190 x 190 at y = 10, and an image ten times taller than
wide becomes 27.7 x 277. For the list: append adds one entry at the end,
remove deletes exactly the entry at the index and keeps the order of the
rest, an index past the end removes nothing, clear empties the list, and
both buttons are enabled exactly when the list is non-empty. A file is
accepted exactly when its type contains `image` somewhere. The filter
keeps exactly the accepted files, in selection order.

Arithmetic is exact (`real`). The page size is a parameter (`PageSize`),
because the source reads it from the PDF library. The library's A4 is about
210.0016 x 297.0001 in millimetres. The examples use 210 x 297 as the
round figures. The margin and the gap are the constants 10 of the source.
The layout assumes that every image has a positive pixel width and
height. The source does not guarantee this. An image with no intrinsic size,
such as some SVG files, can load with width 0; its ratio is then 0 and its
full-width height infinite (script.js:146-148).

## Model

| member | source | states |
|---|---|---|
| `PdfLayout.Place` | script.js:146-173 | the definition of one turn of the loop (scale to full width, new page on overflow when the page holds something, shrink to the usable height); characterised by `PlaceFits`, `PlaceShape` and `PlacePage` |
| `PdfLayout.Next` | script.js:176 | the definition of the cursor update (same page, y + height + 10); used by `PlacementAt`, `FinalCursor` and `LayoutStep` |
| `PdfLayout.Layout` | script.js:137-181 | the definition of the plan, the placements of `Run`; characterised by `LayoutFits`, `LayoutShape`, `LayoutStep`, `LayoutPages` and `RunPrefix`, and equal to what `GeneratePlan` computes |
| `PdfLayout.Ratio` | script.js:146 | the aspect ratio is positive and ratio times pixel height is pixel width |
| `PdfLayout.Run` | script.js:135-181 | running the loop over n images emits exactly n placements |
| `PdfLayout.OnLoad` | script.js:144-176 | the callback with its mutable cursor draws exactly the placement `Place` gives and leaves the cursor where `Next` puts it |
| `PdfLayout.RunStep` | script.js:137-176 | one more image extends the run by one step from the cursor the earlier images left |
| `PdfLayout.GeneratePlan` | script.js:126-181 | the loop with its mutable `currentY` and page counter emits exactly the plan `Layout`, one placement per image, each inside the margins on a valid page |
| `PdfLayout.PlaceFits` | script.js:151-162 | on a valid page, one image placed below a cursor that is not above the top margin lies inside the top and bottom margins and has positive height |
| `PdfLayout.PlaceAspect` | script.js:146-173 | from any cursor on any page, one placement is at x = margin and keeps the aspect ratio |
| `PdfLayout.PlaceShape` | script.js:146-173 | from a cursor not above the top margin, one placement's height is the full-width height, cut to the usable height when larger; on a valid page it is at most the content width, and exactly that wide when not cut |
| `PdfLayout.PlacePage` | script.js:151-156 | one step keeps the page or adds one; it adds one exactly when the image overflows and the cursor is below the top margin; on a new page y is the margin, otherwise the cursor |
| `PdfLayout.RunPrefix` | script.js:137-181 | laying out the first j images gives the first j placements of the whole plan (input order, no look-ahead) |
| `PdfLayout.PlacementAt` | script.js:137-176 | placement k is the one step applied to the cursor left by images 0..k-1, and the cursor after it is one gap below it |
| `PdfLayout.CursorBelowMargin` | script.js:135-176 | on a valid page the cursor is never above the top margin, and strictly below it once an image is drawn |
| `PdfLayout.LayoutFits` | script.js:151-162 | on a valid page every placement satisfies margin <= y and y + height <= page height - margin |
| `PdfLayout.LayoutAspect` | script.js:146-173 | on any page every placement is at the left margin and keeps its image's aspect ratio |
| `PdfLayout.LayoutShape` | script.js:146-173 | on a valid page every placement is at most content width, is full width iff the full-width height fits the usable height, and otherwise is exactly the usable height tall |
| `PdfLayout.LayoutFirst` | script.js:135-156 | the first image goes on page 0 at y = margin |
| `PdfLayout.LayoutStep` | script.js:151-176 | consecutive pages differ by 0 or 1; on the same page the next y is the previous y + height + 10; on a new page it is the margin; on a valid page a new page starts iff the next full-width image does not fit below the cursor |
| `PdfLayout.LayoutPagesContiguous` | script.js:151-156 | the page numbers of a plan start at 0 and grow by at most one per placement |
| `PdfLayout.PagesMonotone` | script.js:153-155 | in such a plan the page numbers never decrease |
| `PdfLayout.NoEmptyPage` | script.js:152-156 | in such a plan every page up to the last holds an image |
| `PdfLayout.LayoutPages` | script.js:151-156 | the plan's page numbers never decrease and no page of the document is empty |
| `PdfLayout.FinalCursor` | script.js:176 | after the last image the cursor is on its page, at its y + height + 10 |
| `PdfLayout.EmptyLayout` | script.js:137 | no images, no placements |
| `PdfLayout.TwoSquares` | script.js:131-176 | on 210 x 297 two squares give (page 0, y 10, 190 x 190) and (page 1, y 10, 190 x 190) |
| `PdfLayout.OneTallImage` | script.js:131-176 | on 210 x 297 an image of ratio 0.1 gives (page 0, y 10, 27.7 x 277) |
| `Uploads.IsImageType` | script.js:54 | the definition of the type filter `file.type.match('image.*')`; characterised by `IsImageTypeIffContains` |
| `Uploads.Accepted` | script.js:52-54 | the definition of the files a selection keeps; characterised by `AcceptedMembers` and `AcceptedAppend`, and equal to what `FilesToRead` computes |
| `Uploads.IsImageTypeIffContains` | script.js:54 | a type passes the filter iff `image` occurs in it at some position |
| `Uploads.MissingLetterRejected` | script.js:54 | a type that lacks a letter of `image` is skipped |
| `Uploads.ImageTypesAccepted` | script.js:54 | `image/png` and `image/jpeg` pass |
| `Uploads.OtherTypesRejected` | script.js:54 | `application/pdf`, `text/plain` and the empty type are skipped |
| `Uploads.FilterNotAnchored` | script.js:54 | `application/x-image` passes, since the match is not anchored |
| `Uploads.AcceptedAppend` | script.js:52-54 | filtering a concatenation is the concatenation of the filtered parts, so selection order is kept |
| `Uploads.AcceptedMembers` | script.js:52-54 | a file is kept iff it was selected and its type passes; the result is no longer than the selection |
| `Uploads.FilesToRead` | script.js:48-73 | the loop of `handleFiles` starts reading exactly the accepted files, in selection order |
| `Uploads.Splice` | script.js:93 | the definition of `splice(index, 1)`; characterised by `SpliceRemovesOne` and `SpliceOutOfRange` |
| `Uploads.SpliceRemovesOne` | script.js:93 | removing an index in range leaves one entry fewer; entries before it are unchanged, entries after it move up by one, and the multiset loses exactly that entry |
| `Uploads.SpliceOutOfRange` | script.js:93 | removing an index past the end changes nothing |
| `Uploads.AddThenRemove` | script.js:93 | removing the entry just appended gives back the earlier list |
| `Uploads.ImageList.constructor` | script.js:11 | the list starts empty, as at script.js:11; that both buttons start disabled is an assumption about the page's markup (see "## Left out"), not something script.js sets |
| `Uploads.ImageList.Valid` | script.js:106-107 | the definition of the button rule: both buttons are disabled exactly when the list is empty; every method that edits the list ensures it; `Generate` changes nothing |
| `Uploads.ImageList.UpdateButtons` | script.js:105-108 | both buttons are disabled exactly when the list is empty; the list is unchanged |
| `Uploads.ImageList.Add` | script.js:58-69 | the image is appended at the end, earlier entries unchanged, and the button rule holds again |
| `Uploads.ImageList.Remove` | script.js:91-96 | the list becomes `splice(index, 1)` of the old list and the button rule holds again |
| `Uploads.ImageList.Clear` | script.js:195-198 | the list becomes empty and both buttons are disabled |
| `Uploads.ImageList.Generate` | script.js:111-191 | needs positive image sizes only when the library is loaded; an empty list does nothing; a missing PDF library ends in an error; otherwise the saved document is laid out as `Layout` plans, one placement per image, each inside the margins on a valid page |

## Left out

- DOM wiring, thumbnails (`updateImageList`), drag-over styling and the status text: user interface only.
- `FileReader` and image decoding are asynchronous I/O. A `File` carries the picture it decodes to. A positive pixel size is a precondition of the layout, and of `Generate` only when the PDF library is loaded, since otherwise no image is laid out.
- The order in which the reads of one batch finish is not determined by the source. The model therefore states which files are read (`FilesToRead`) and that each finished read appends one entry (`ImageList.Add`). It does not state the order of the entries from one batch.
- Decode failure. If an image never loads, `img.onload` never fires and the awaited promise never settles. Generation then hangs instead of aborting. It is not modelled.
- The PDF library (`new jsPDF()`, the page-size getters, `addImage` with its fixed `'JPEG'` tag, `addPage`, `save`) is a foreign library. The page size is a parameter, and pages and images are emitted as placements. Whether the library loaded is the `libraryLoaded` parameter of `Generate`; other exceptions it could throw are not modelled.
- IEEE-754 rounding of the divisions and products: the model uses exact rationals.
- Uploads.ImageList.Generate: generation is modelled as one atomic step over the list as it stands at the click. In the source the loop re-reads `uploadedImages.length` and `uploadedImages[i]` on every turn (script.js:137-138), across the `await` of each decode (script.js:143). Meanwhile the remove buttons, `clearAll` and finishing uploads stay active and edit the list. Those edits during generation are not modelled. An observation, not executed: with the list [A, B, C], removing A while B decodes leaves [B, C]; the loop test 2 < 2 then fails, so the document holds A and B and C is never drawn.
- The busy flag (`generateBtn.disabled = true` at script.js:115, reset to `false` in the `finally` at script.js:190) is not modelled. It does not reliably guard against re-entry: any list edit during generation calls `updateButtons`, which re-enables the button for a non-empty list (script.js:106). After a `clearAll` during generation, the `finally` re-enables it on an empty list. `Generate` therefore does not change the flags.
- The initial disabled state of the buttons comes from the page's markup. index.html is not part of this model. The constructor assumes both buttons start disabled, which is what `updateButtons` sets for an empty list.
- Determinism (laying out the same images twice gives the same plan) is immediate, because `Layout` is a function. It is not stated as a lemma.
