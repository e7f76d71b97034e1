# Row-packing layout engine of the photo viewer

The photo viewer shows the images it has loaded in a GTK layout widget.
Each image has been scaled to a height of 200 pixels. A layout pass
(`draw_photos`) walks the image list in order and packs the images greedily
into rows narrower than the window, except that an image at least as wide
as the window gets a row of its own. A row is flushed when the next image's
width plus the row's running width reaches the window width. That check runs
even when the row buffer is still empty, so a first image at least as wide
as the window leaves an empty row 0 behind it. Each flushed row goes to
`draw_to_layout_from_vec`, which works as follows:

- It splits the row's free space (the layout widget's width minus the row's
  width) into `|row| + 1` gaps with `i32` division, which truncates toward
  zero. The free space is not clamped, so an over-wide row gets a gap of zero
  or less.
- It `put`s every image that has not been drawn yet and `move_`s every image
  that has.
- It puts the first image one gap in from the left. Each next image goes one
  gap after the previous image's right edge.
- Row `r` sits at y = 198·r + 10, where 198 = 1390 / 7.

After the pass the layout widget is resized to the window width by
198 × (number of rows).

The pass always centres its rows against the layout widget's size from the
previous pass. The window width only becomes the widget's width when that
pass ends. The first pass, run when the window opens, sees the default width
1250 for both. The window's size-allocate handler records a new
(width, height) pair and runs a pass. If the pair equals the recorded one,
the handler does nothing.

The model has these modules:

- `LayoutBasics`: the constants, truncating division, and a row's width as
  a fold over its images.
- `RowPacker`: the packing loop as a left scan (`Scan`) and the rows of a
  pass (`Pack`), with the packing properties.
- `RowSpacer`: the gap and the cursor positions within a row.
- `Placement`: the commands a row and a pass send to the widget, and the
  `drawn` flags they set.
- `LayoutPass`: what one pass does to every image. It also holds `Loop`,
  the variables of the layout loop after each image, and `LayoutResult`,
  the loop followed by the final flush, both proved equal to the pass over
  `Pack`.
- `Gallery`: the window as a class. It has the image widths, the `drawn`
  flags, the recorded dimensions, the widget's size and the log of
  `put`/`move_` calls. The methods `DrawPhotos`, `DrawToLayoutFromVec` and
  `SizeAllocate` and the constructor are imperative. Their loops are proved
  against the specification functions above.
- `Scenarios`: worked examples with concrete coordinates.

Images are identified by their index in the image list. `ws[i]` is the pixel
width of image `i` (`LoadedImage::width`). Rows are sequences of indices, so
the order and coverage of a pass are statements about the indices
themselves.

## Quirks the model keeps

These behaviours of `src/main.rs` are modelled as the code has them:

- The flush test at src/main.rs:257 does not check that the row buffer is
  non-empty, so a first image at least as wide as the window leaves an
  empty row 0 in front of it. `PackEmptyRow` and `WideImage` cover this.
- The free space at src/main.rs:296-298 is not clamped at zero, so the
  gap of an over-wide row can be negative.
- The gap at src/main.rs:303 is an `i32` division, which truncates toward
  zero: -201 / 2 is -100, where Dafny's own `/` gives -101. `TruncDiv`
  models it, and `WideImage` shows the difference.
- Rows are spaced against `layout.get_size().0` (src/main.rs:296), which
  still holds the width the previous pass set. The window width becomes the
  widget's width only when the pass ends (src/main.rs:285-288). The first
  pass after a width change therefore centres the rows in the old width.
  `StaleWidthResize` covers this.
- A resize that keeps the width but changes the height still runs a pass
  (src/main.rs:225 compares the whole pair), and after a width change that
  pass moves the images to the positions of the new width.
  `HeightOnlyRecentre` shows this. From then on, every pass at that width
  repeats the same positions, because the flags decide only between `put`
  and `move_` (`PassCommandsPositions`).
- Rows are 198 pixels apart while images are 200 pixels high, so each row
  overlaps the next by two pixels. The widget's size is set to `rows × 198`
  high, which is 12 pixels short of the last row's bottom edge
  (`LastRowOverhang`).
- The size-allocate handler has no reentrancy guard.

## Model

| member | source | states |
|---|---|---|
| LayoutBasics.TruncDivBounds | src/main.rs:303 | `i32` division of the free space truncates toward zero: for a non-negative dividend the quotient times the divisor stays within one divisor below the dividend, and for a negative one within one divisor above it |
| LayoutBasics.TruncDiv | src/main.rs:303 | the `i32` quotient of the free space by the slot count, truncated toward zero; pinned down by `TruncDivBounds` |
| LayoutBasics.RowWidth | src/main.rs:294-298 | the `fold` summing the widths of a row's images from the left; additive over concatenation by `RowWidthAppend` |
| RowPacker.Step | src/main.rs:257-271 | one iteration of the packing loop (flush when the image would reach the window width, then push and add its width); its effect on the loop state is given by `ScanShape`, `ScanRowBound`, `ScanGreedy` and `ScanEmptyRow` |
| RowPacker.Scan | src/main.rs:249-273 | the loop state after `k` images holds only indices of images in the list |
| RowPacker.Pack | src/main.rs:249-284 | the rows of a pass (flushed rows plus the final non-empty buffer) hold only indices of images in the list |
| RowPacker.ScanShape | src/main.rs:255-273 | after `k` images the buffer is the run of images just before `k`, it is non-empty once an image was seen, the flushed rows laid end to end are exactly the images before it, and the running width is the buffer's width |
| RowPacker.ScanRowBound | src/main.rs:257-271 | during the loop every flushed row of two or more images, and a buffer of two or more, is narrower than the window width |
| RowPacker.ScanGreedy | src/main.rs:257-271 | during the loop every row after the first is non-empty and was started only because its first image would have taken the previous row to the window width or beyond |
| RowPacker.ScanEmptyRow | src/main.rs:257-268 | during the loop a flushed row is empty only when it is row 0 and the first image alone reaches the window width, and such a first image always flushes an empty row 0 |
| RowPacker.PackCoversInOrder | src/main.rs:255-284 | the rows of a pass laid end to end are the image list in order, each image exactly once |
| RowPacker.PackRowWidthBound | src/main.rs:257-271 | only a row of a single image may reach or exceed the window width |
| RowPacker.PackGreedy | src/main.rs:257-271 | every row but the last was closed only because the next row's first image would have taken it to the window width or beyond (greedy maximality) |
| RowPacker.PackEmptyRow | src/main.rs:255-284 | the only row that can be empty is row 0, it is empty exactly when the first image alone reaches the window width, and a pass has no rows exactly when there are no images |
| RowSpacer.GapBounds | src/main.rs:296-303 | the `|row| + 1` gaps together fill the free space short of it by less than one per slot, and a negative free space gives a gap of zero or less, rounded toward zero |
| RowSpacer.Gap | src/main.rs:296-303 | the row's free space against the widget's width, divided into `|row| + 1` truncated slots; bounded by `GapBounds` |
| RowSpacer.XPos | src/main.rs:306-327 | the `pos_x` cursor: one gap at the first image, then the previous image's width plus one gap; in closed form by `XPosClosedForm` |
| RowSpacer.XPosClosedForm | src/main.rs:306-327 | the cursor, which starts one gap in and advances by each image's width plus one gap, stands at the k-th image after `k + 1` gaps plus the widths of the images before it |
| RowSpacer.RowFitsContainer | src/main.rs:296-327 | when a row is no wider than the widget, its gap is non-negative, images start at x >= 0 and do not overlap, and the last image's right edge plus one gap stays within the widget |
| Placement.Marked | src/main.rs:316-320 | the `drawn` flags after the images of a row have been set one after the other; characterised by `MarkedAt` and `MarkedAppend` |
| Placement.MarkedAt | src/main.rs:316-320 | after a row's images are marked, a flag is set exactly when it was set before or its image is in the row |
| Placement.OccursIn | src/main.rs:316-320 | the record of an image placed earlier in the same row (which the program keeps in the image's `drawn` flag) holds exactly when the image is among the row's first `n` images |
| Placement.MarkedNext | src/main.rs:316-320 | when the placement loop reaches an image, its flag is set exactly when it was set before the row or the image came earlier in the row, and placing it sets the flag |
| Placement.RowY | src/main.rs:307 | the row's y, `row_height * row_index + row_spacing`; with the program's constants 198·r + 10 (`PassPositions`) |
| Placement.Place | src/main.rs:317-325 | the `put` of an undrawn image and the `move_` of a drawn one, at the given spot |
| Placement.PlacePrefix | src/main.rs:312-328 | the commands of the first `n` rounds of the placement loop; element by element by `PlacePrefixAt` |
| Placement.PlaceRow | src/main.rs:312-328 | one command per image of the row; element by element by `PlaceRowAt` |
| Placement.RowCommands | src/main.rs:258-264 | the commands of row `r` of a pass, at the row's y and gap; placed within the pass by `PassCommandsRow` |
| Placement.PassCommands | src/main.rs:255-284 | the commands of all rows of a pass, each row seeing the flags the earlier rows left; characterised by `PassCommandsAt`, `PassCommandsRow` and `PassCoversImages` |
| Placement.PlaceRowPositions | src/main.rs:312-327 | the flags only choose between `put` and `move_`: a row places the same images at the same (x, y) whatever the flags |
| Placement.PassCommandsPositions | src/main.rs:255-284 | the images and (x, y) of a pass depend only on the widths, the rows and the widget's width, not on the flags, so two passes at the same window and widget width place every image identically |
| Placement.PlacePrefixAt | src/main.rs:306-327 | after `n` rounds of the placement loop, command `k` is for the k-th image, at its cursor position and the row's y, and is a `put` exactly when the image was not drawn and had not come earlier |
| Placement.PlaceRowAt | src/main.rs:306-327 | a row issues one command per image in row order, the k-th at the k-th cursor position and the row's y, and it is a `put` exactly when the image was not drawn before and not placed earlier in the row |
| Placement.PassCommandsAt | src/main.rs:255-284 | a pass issues one command per image of its rows in row order, and a command is a `put` exactly when its image was not drawn before the pass and not placed earlier in it |
| Placement.PassCommandsRow | src/main.rs:258-264 | image `k` of row `r` gets command number (images in rows before `r`) + `k`, at its cursor position in the row and at the row's y |
| LayoutPass.PassCoversImages | src/main.rs:255-284 | a pass issues exactly one command per image, the j-th for image j, and it is a `put` exactly when image j was not drawn before the pass |
| LayoutPass.PassPositions | src/main.rs:303-327 | the k-th image of row `r` is placed at y = 198·r + 10 and at its cursor position, with the gap computed against the widget's width |
| LayoutPass.PassMarksAll | src/main.rs:316-320 | after a pass every image is drawn |
| LayoutPass.RedrawOnlyMoves | src/main.rs:317-324 | once every image is drawn, a pass issues only `move_` commands |
| LayoutPass.NoImagesNoCommands | src/main.rs:255-284 | with no images a pass has no rows and issues no commands |
| LayoutPass.RowsOverlap | src/main.rs:244 | consecutive rows are 198 pixels apart, two pixels less than the 200-pixel image height |
| LayoutPass.LastRowOverhang | src/main.rs:285-288 | with at least one image a pass has at least one row, and the widget's height `rows × 198` is 12 pixels short of the bottom of the last row's 200-pixel images |
| LayoutPass.Loop | src/main.rs:249-273 | the variables of the layout loop after each image (row index, buffer, running width, commands and flags); equal to the packer's scan by `LoopIsScan` |
| LayoutPass.LoopIsScan | src/main.rs:255-273 | after `k` images the loop's row index, buffer and running width are those of the packer's scan, and it has issued exactly the commands of the rows flushed so far and set exactly their flags |
| LayoutPass.LoopCompletesPass | src/main.rs:275-284 | the final flush of a non-empty buffer completes the pass over `Pack` with one row more, and with an empty buffer the loop's output already is that pass |
| LayoutPass.LayoutResult | src/main.rs:249-288 | the loop followed by the flush of a non-empty buffer, giving the row count, commands and flags of the pass; equal to the pass over `Pack` by `LayoutResultIsPass` |
| LayoutPass.LayoutResultIsPass | src/main.rs:255-288 | the pass as the program runs it (loop, then final flush) has as many rows as `Pack`, issues the commands of the pass over `Pack` and leaves the flags those rows set |
| Gallery.AppWindow.constructor | src/main.rs:166-210 | the window opens with the widget and the recorded dimensions at the default 1250 × 1390, runs one pass that `put`s every image in list order, marks them all drawn and sizes the widget to 1250 by the rows' height, which is 12 pixels short of the last row's bottom edge |
| Gallery.AppWindow.DrawToLayoutFromVec | src/main.rs:292-330 | the row's commands are appended to the log (the row's gap against the widget's current width, its cursor positions and its y), and the row's images are marked drawn |
| Gallery.AppWindow.DrawPhotos | src/main.rs:242-290 | the loop and final flush of `LayoutResult` at the recorded window width are what the method does: their commands are appended, with gaps from the widget's width before the pass, their flags are left, and the widget is then set to the window width by `rows × 198`; with `LayoutResultIsPass` this is the pass over `Pack` |
| Gallery.AppWindow.SizeAllocate | src/main.rs:223-235 | the same (width, height) as recorded changes nothing; a new pair is recorded and runs a pass over `Pack` at the new width, spaced against the widget's old width, which ends with every image drawn and the widget resized to the new width by a height 12 pixels short of the last row's bottom edge |
| Scenarios.ThreeImages | src/main.rs:257-284 | three 300-pixel images form one 900-pixel row in any window wider than 900 |
| Scenarios.ThreeImageRow | src/main.rs:306-327 | that row at gap g places its images at x = g, 2g + 300 and 3g + 600, all `put` or all `move_` when their flags agree |
| Scenarios.OneEvenRow | src/main.rs:296-327 | three 300-pixel images in a 1000-pixel widget are put at x = 25, 350, 675 and y = 10 |
| Scenarios.TwoRows | src/main.rs:257-284 | two 600-pixel images in a 1000-pixel window take a row each, put at x = 200 on y = 10 and y = 208 |
| Scenarios.TwoRowPass | src/main.rs:255-284 | a pass over two rows issues the first row's commands, then the second's, which sees the flags the first row left |
| Scenarios.TwoSingleRows | src/main.rs:257-284 | two one-image rows: each image is a truncated half of its free space in from the left, on y = 10 and y = 208, and the second row sees its own image's old flag |
| Scenarios.SingleImageRow | src/main.rs:296-327 | a one-image row issues one command, one truncated half of the free space in from the left, at the row's y |
| Scenarios.WideImage | src/main.rs:257-303 | an image of 1201 pixels in a 1000-pixel window goes to row 1 behind an empty row 0 at x = -100 (truncated, not floored), y = 208, and the widget is 396 high |
| Scenarios.OneRowPass | src/main.rs:255-284 | a pass over one row places it on the first line |
| Scenarios.DefaultWidthRow | src/main.rs:296-327 | in the default 1250-pixel widget three 300-pixel images get gap 87 and x = 87, 474, 861 |
| Scenarios.HeightOnlyRecentre | src/main.rs:223-235 | after widening to 1500 pixels the images sit at x = 87, 474, 861; a resize to the same width and a new height moves them to x = 150, 600, 1050, and a further one repeats those positions |
| Scenarios.StaleWidthResize | src/main.rs:223-235 | a window opened on three 300-pixel images puts them at x = 87, 474, 861; widening it to 1500 moves them to the same positions, because the pass centres against the widget's old width, and only then is the widget 1500 wide |

## Left out

- Image loading (`load_images_for_path`, `LoadedImage::new`, reading the directory, the three-image limit, pixbuf scaling) is not part of this model. The images are given as a list of widths, and the 200-pixel load height only enters as a constant.
- The click handler that toggles an image's `selected` flag and CSS class is not modelled. It does not affect layout.
- GTK set-up, CSS loading, `show_all`, the `println!` logging, and the `Rc`/`Arc`/`RefCell` sharing are left out. They are I/O or memory management. The `put`/`move_` calls and `set_size` are modelled as a log of commands and the widget's size fields.
- The per-image `drawn` `RefCell`s are modelled as one sequence of flags on the window. Two list entries that share one `LoadedImage` cannot occur, because the list owns its images.
- Gallery.AppWindow.SizeAllocate: the reentrancy of the GTK signal is not modelled, that is, a size-allocate fired during a pass. GTK runs the handler on the main loop.
- `i32` overflow in the width sums and the `u32` casts of `set_size` are not modelled: integers are unbounded. A negative window width or a total row width beyond 2^31 would wrap in the program.
- The 1250 × 1390 minimum size that `set_size_request` gives the window (src/main.rs:198) is not modelled: `Gallery.AppWindow.SizeAllocate` accepts any width, while the program's handler never sees one below 1250. The class-level scenarios widen the window; the function-level ones (`OneEvenRow`, `TwoRows`, `WideImage`) use a 1000-pixel width only to show the arithmetic of a pass.
- `layout.get_size()` is modelled as the widget's width last set with `set_size`. The widget's height is recorded but never read by the layout.
