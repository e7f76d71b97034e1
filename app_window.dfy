/** The main window of the photo viewer as far as layout goes: the ordered
    image list with each image's `drawn` flag, the last window size seen,
    the size of the layout widget, and the log of `put`/`move_`
    calls made on that widget. */
module Gallery {
  import opened LayoutBasics
  import opened RowPacker
  import opened RowSpacer
  import opened Placement
  import opened LayoutPass

  lemma ConcatAssoc<T>(a: seq<T>, b: seq<T>, c: seq<T>)
    ensures a + b + c == a + (b + c)
  {
  }

  class AppWindow {
    /** Width of each loaded image, in list order. */
    const widths: seq<nat>
    /** `drawn[i]`: image i has been put on the layout widget. */
    var drawn: seq<bool>
    /** Last (width, height) seen by the size-allocate handler. */
    var dimensions: (int, int)
    /** Size of the layout widget, as last set with `set_size`. */
    var containerWidth: int
    var containerHeight: int
    /** Every `put` and `move_` call made on the layout widget so far. */
    var commands: seq<Command>

    ghost predicate Valid()
      reads this
    {
      |drawn| == |widths|
    }

    /** Opens the window on the loaded images: the layout widget and the
        recorded dimensions start at the default window size, no image is
        drawn yet, and one layout pass is run, which puts every image. */
    constructor (ws: seq<nat>)
      ensures Valid() && widths == ws
      ensures dimensions == (DefaultWidth, DefaultHeight)
      ensures containerWidth == DefaultWidth
      ensures containerHeight == |Pack(ws, DefaultWidth)| * RowHeight
      ensures ws != [] ==> containerHeight == RowY(|Pack(ws, DefaultWidth)| - 1, RowHeight, RowSpacing) + LoadHeight - 12
      ensures commands == PassCommands(ws, Pack(ws, DefaultWidth), DefaultWidth, seq(|ws|, _ => false))
      ensures |commands| == |ws| && forall j :: 0 <= j < |ws| ==> commands[j].Put? && commands[j].image == j
      ensures forall i :: 0 <= i < |ws| ==> drawn[i]
    {
      widths := ws;
      drawn := seq(|ws|, _ => false);
      containerWidth, containerHeight := DefaultWidth, DefaultHeight;
      dimensions := (DefaultWidth, DefaultHeight);
      commands := [];
      new;
      ghost var blank := drawn;
      assert blank == seq(|ws|, _ => false);
      DrawPhotos();
      LayoutResultIsPass(ws, DefaultWidth, DefaultWidth, blank);
      PassCoversImages(ws, DefaultWidth, DefaultWidth, blank);
      PassMarksAll(ws, DefaultWidth, blank);
      if ws != [] {
        LastRowOverhang(ws, DefaultWidth);
      }
    }

    /** The size-allocate handler: a new (width, height) pair is recorded
        and triggers a layout pass at the new width; the same pair as last
        time does nothing at all. The pass centres its rows in the layout
        widget as it was before the pass resizes it. */
    method SizeAllocate(width: int, height: int)
      requires Valid()
      modifies this`dimensions, this`commands, this`containerWidth, this`containerHeight, this`drawn
      ensures Valid() && dimensions == (width, height)
      ensures old(dimensions) == (width, height) ==>
        && commands == old(commands) && drawn == old(drawn)
        && containerWidth == old(containerWidth) && containerHeight == old(containerHeight)
      ensures old(dimensions) != (width, height) ==>
        && containerWidth == width
        && containerHeight == |Pack(widths, width)| * RowHeight
        && commands == old(commands) + PassCommands(widths, Pack(widths, width), old(containerWidth), old(drawn))
        && (forall i :: 0 <= i < |widths| ==> drawn[i])
        && (widths != [] ==> containerHeight == RowY(|Pack(widths, width)| - 1, RowHeight, RowSpacing) + LoadHeight - 12)
    {
      if dimensions != (width, height) {
        dimensions := (width, height);
        ghost var cw0, drawn0 := containerWidth, drawn;
        DrawPhotos();
        LayoutResultIsPass(widths, width, cw0, drawn0);
        PassMarksAll(widths, width, drawn0);
        if widths != [] {
          LastRowOverhang(widths, width);
        }
      }
    }

    /** Places one row: the free space (container width minus the row's
        width) is split into `|row| + 1` truncated gaps; each image, left to
        right, is put if it was not drawn yet (and marked drawn) or moved
        otherwise, at the cursor, which then advances by the image's width
        plus one gap. */
    method DrawToLayoutFromVec(row: seq<nat>, rowIndex: int, rowHeight: int, rowSpacing: int)
      requires Valid() && ValidRow(widths, row)
      modifies this`commands, this`drawn
      ensures Valid()
      ensures commands == old(commands)
        + PlaceRow(widths, row, RowY(rowIndex, rowHeight, rowSpacing), Gap(widths, row, containerWidth), old(drawn))
      ensures drawn == Marked(old(drawn), row)
    {
      var freeSpace := containerWidth - RowWidth(widths, row);
      var spacing := TruncDiv(freeSpace, |row| + 1);
      var posX := spacing;
      var posY := rowHeight * rowIndex + rowSpacing;
      ghost var drawn0 := drawn;
      ghost var commands0 := commands;
      assert row[..0] == [];
      for k := 0 to |row|
        invariant posX == XPos(widths, row, spacing, k)
        invariant commands == commands0 + PlacePrefix(widths, row, k, posY, spacing, drawn0)
        invariant drawn == Marked(drawn0, row[..k])
      {
        MarkedNext(widths, row, drawn0, k);
        var image := row[k];
        if !drawn[image] {
          commands := commands + [Put(image, posX, posY)];
          drawn := drawn[image := true];
        } else {
          assert drawn == drawn[image := true];
          commands := commands + [Move(image, posX, posY)];
        }
        posX := posX + widths[image] + spacing;
      }
      assert row[..|row|] == row;
    }

    /** One layout pass at the recorded window width: images are packed
        into rows greedily, in list order, each row is placed as soon as it
        is flushed, and the layout widget is resized to the window width by
        the rows' total height. */
    method DrawPhotos()
      requires Valid()
      modifies this`commands, this`containerWidth, this`containerHeight, this`drawn
      ensures Valid()
      ensures var pass := LayoutResult(widths, dimensions.0, old(containerWidth), old(drawn));
        && containerWidth == dimensions.0 && containerHeight == pass.rowCount * RowHeight
        && commands == old(commands) + pass.commands && drawn == pass.drawn
    {
      var rowHeight := DefaultHeight / ImgRatioToAppHeight;
      var maxWidth := dimensions.0;
      var rowSpacing := 10;
      var rowIndex := 0;
      var rowWidth := 0;
      var rowItems: seq<nat> := [];
      ghost var drawn0 := drawn;
      ghost var commands0 := commands;
      ghost var ws := widths;
      ghost var cw := containerWidth;
      for k := 0 to |widths|
        invariant containerWidth == cw
        invariant var st := Loop(ws, maxWidth, cw, drawn0, k);
          && rowIndex == st.rowIndex && rowItems == st.rowItems && rowWidth == st.rowWidth
          && commands == commands0 + st.commands && drawn == st.drawn
      {
        if widths[k] + rowWidth >= maxWidth {
          ghost var marked := drawn;
          DrawToLayoutFromVec(rowItems, rowIndex, rowHeight, rowSpacing);
          assert commands == commands0 + (Loop(ws, maxWidth, cw, drawn0, k).commands + RowCommands(ws, rowItems, rowIndex, cw, marked)) by {
            ConcatAssoc(commands0, Loop(ws, maxWidth, cw, drawn0, k).commands, RowCommands(ws, rowItems, rowIndex, cw, marked));
          }
          rowIndex := rowIndex + 1;
          rowWidth := 0;
          rowItems := [];
        }
        rowItems := rowItems + [k];
        rowWidth := rowWidth + widths[k];
      }
      if |rowItems| > 0 {
        ghost var marked := drawn;
        DrawToLayoutFromVec(rowItems, rowIndex, rowHeight, rowSpacing);
        ConcatAssoc(commands0, Loop(ws, maxWidth, cw, drawn0, |ws|).commands, RowCommands(ws, rowItems, rowIndex, cw, marked));
        rowIndex := rowIndex + 1;
      }
      containerWidth, containerHeight := maxWidth, rowIndex * rowHeight;
    }
  }
}
