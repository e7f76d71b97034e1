/** One whole layout pass: the rows of `Pack` handed to the placement
    driver. These lemmas state what a pass does to each image. */
module LayoutPass {
  import opened LayoutBasics
  import opened RowPacker
  import opened RowSpacer
  import opened Placement

  /** One command per image per pass: a pass issues exactly `|ws|`
      commands, the j-th for image j (so in list order), and it is a `Put`
      exactly when image j was not drawn before the pass. */
  lemma PassCoversImages(ws: seq<nat>, maxWidth: int, containerWidth: int, drawn: seq<bool>)
    requires |drawn| == |ws|
    ensures var cmds := PassCommands(ws, Pack(ws, maxWidth), containerWidth, drawn);
      && |cmds| == |ws|
      && forall j :: 0 <= j < |ws| ==> cmds[j].image == j && (cmds[j].Put? <==> !drawn[j])
  {
    var rows := Pack(ws, maxWidth);
    PackCoversInOrder(ws, maxWidth);
    PassCommandsAt(ws, rows, containerWidth, drawn);
    var all := Flatten(rows);
    forall j | 0 <= j < |ws| ensures j !in all[..j] {
      assert forall t :: 0 <= t < j ==> all[..j][t] == t;
    }
  }

  /** Positions: image `i`, the k-th image of row `r`, is placed at
      y = 198 * r + 10 and at the k-th cursor position of its row, whose
      gap is computed against `containerWidth`. */
  lemma PassPositions(ws: seq<nat>, maxWidth: int, containerWidth: int, drawn: seq<bool>, r: nat, k: nat)
    requires |drawn| == |ws|
    requires r < |Pack(ws, maxWidth)| && k < |Pack(ws, maxWidth)[r]|
    ensures var row := Pack(ws, maxWidth)[r];
      var cmds := PassCommands(ws, Pack(ws, maxWidth), containerWidth, drawn);
      var i := row[k];
      && i < |cmds|
      && cmds[i] == Place(i, XPos(ws, row, Gap(ws, row, containerWidth), k), 198 * r + 10, drawn[i])
  {
    var rows := Pack(ws, maxWidth);
    var i := rows[r][k];
    PackIndex(ws, maxWidth, r, k);
    PassCommandsRow(ws, rows, containerWidth, drawn, r, k);
    PassCoversImages(ws, maxWidth, containerWidth, drawn);
    assert RowHeight == 198;
    PlaceOf(PassCommands(ws, rows, containerWidth, drawn)[i], drawn[i]);
  }

  /** Image `k` of row `r` of a pass is the image numbered by its
      position in the pass. */
  lemma PackIndex(ws: seq<nat>, maxWidth: int, r: nat, k: nat)
    requires r < |Pack(ws, maxWidth)| && k < |Pack(ws, maxWidth)[r]|
    ensures |Flatten(Pack(ws, maxWidth)[..r])| + k == Pack(ws, maxWidth)[r][k]
  {
    PackCoversInOrder(ws, maxWidth);
    FlattenAt(Pack(ws, maxWidth), r, k);
  }

  /** A command is the placement its kind, image and position describe. */
  lemma PlaceOf(c: Command, drawn: bool)
    requires c.Put? <==> !drawn
    ensures c == Place(c.image, c.x, c.y, drawn)
  {
  }

  /** After a pass every image is drawn. */
  lemma PassMarksAll(ws: seq<nat>, maxWidth: int, drawn: seq<bool>)
    requires |drawn| == |ws|
    ensures var after := Marked(drawn, Flatten(Pack(ws, maxWidth)));
      |after| == |ws| && forall i :: 0 <= i < |ws| ==> after[i]
  {
    PackCoversInOrder(ws, maxWidth);
    var all := Flatten(Pack(ws, maxWidth));
    MarkedAt(drawn, all);
    forall i | 0 <= i < |ws| ensures i in all {
      assert all[i] == i;
    }
  }

  /** Once every image is drawn, a pass issues only `Move` commands. */
  lemma RedrawOnlyMoves(ws: seq<nat>, maxWidth: int, containerWidth: int, drawn: seq<bool>)
    requires |drawn| == |ws| && forall i :: 0 <= i < |ws| ==> drawn[i]
    ensures var cmds := PassCommands(ws, Pack(ws, maxWidth), containerWidth, drawn);
      forall j :: 0 <= j < |cmds| ==> cmds[j].Move?
  {
    PassCoversImages(ws, maxWidth, containerWidth, drawn);
  }

  /** With no images a pass has no rows and issues no commands. */
  lemma NoImagesNoCommands(maxWidth: int, containerWidth: int)
    ensures Pack([], maxWidth) == []
    ensures PassCommands([], Pack([], maxWidth), containerWidth, []) == []
  {
    PackEmptyRow([], maxWidth);
  }

  /** Rows are `RowHeight` = 198 pixels apart while every image is loaded
      `LoadHeight` = 200 pixels high, so each row overlaps the next by two
      pixels. */
  lemma RowsOverlap(r: nat)
    ensures RowY(r + 1, RowHeight, RowSpacing) == RowY(r, RowHeight, RowSpacing) + RowHeight
    ensures RowY(r + 1, RowHeight, RowSpacing) == RowY(r, RowHeight, RowSpacing) + LoadHeight - 2
  {
    assert RowHeight == 198;
  }

  /** With at least one image a pass has at least one row, and the layout
      widget's height, set to `rows * 198`, is 12 pixels short of the
      bottom edge of the last row's images. */
  lemma LastRowOverhang(ws: seq<nat>, maxWidth: int)
    requires ws != []
    ensures var n := |Pack(ws, maxWidth)|;
      n > 0 && n * RowHeight == RowY(n - 1, RowHeight, RowSpacing) + LoadHeight - 12
  {
    PackEmptyRow(ws, maxWidth);
    var n := |Pack(ws, maxWidth)|;
    assert RowHeight == 198;
    assert 198 * (n - 1) == 198 * n - 198;
  }

  /** The variables of the layout loop after its first `k` images: the
      index of the row being filled, its images and running width, the
      commands sent for the rows flushed so far and the flags those rows
      left. `Loop` is `RowPacker.Scan` extended with the commands and the
      flags, so it repeats `Step`'s flush test; `LoopIsScan` proves the two
      agree. It is kept apart from `Scan` so that the packing lemmas need
      not carry the commands, and so that `DrawPhotos`' loop invariant
      stays cheap to check. */
  datatype LoopState = LoopState(rowIndex: nat, rowItems: seq<nat>, rowWidth: int, commands: seq<Command>, drawn: seq<bool>)

  function Loop(ws: seq<nat>, maxWidth: int, containerWidth: int, drawn: seq<bool>, k: nat): (st: LoopState)
    requires k <= |ws| && |drawn| == |ws|
    ensures ValidRow(ws, st.rowItems) && |st.drawn| == |ws|
  {
    if k == 0 then LoopState(0, [], 0, [], drawn)
    else
      var st := Loop(ws, maxWidth, containerWidth, drawn, k - 1);
      if ws[k - 1] + st.rowWidth >= maxWidth then
        LoopState(st.rowIndex + 1, [k - 1], ws[k - 1],
                  st.commands + RowCommands(ws, st.rowItems, st.rowIndex, containerWidth, st.drawn),
                  Marked(st.drawn, st.rowItems))
      else
        LoopState(st.rowIndex, st.rowItems + [k - 1], st.rowWidth + ws[k - 1], st.commands, st.drawn)
  }

  /** After `k` images the loop holds the scan state of the packer and has
      sent exactly the pass over the rows flushed so far. */
  lemma {:induction false} LoopIsScan(ws: seq<nat>, maxWidth: int, containerWidth: int, drawn: seq<bool>, k: nat)
    requires k <= |ws| && |drawn| == |ws|
    ensures var st := Loop(ws, maxWidth, containerWidth, drawn, k);
      var s := Scan(ws, maxWidth, k);
      && st.rowIndex == |s.closed| && st.rowItems == s.current && st.rowWidth == s.width
      && st.commands == PassCommands(ws, s.closed, containerWidth, drawn)
      && st.drawn == Marked(drawn, Flatten(s.closed))
  {
    if k > 0 {
      LoopIsScan(ws, maxWidth, containerWidth, drawn, k - 1);
      var s := Scan(ws, maxWidth, k - 1);
      if ws[k - 1] + s.width >= maxWidth {
        PassCommandsNext(ws, s.closed, s.current, containerWidth, drawn);
      }
    }
  }

  /** At the end of the loop, flushing a non-empty buffer completes the
      pass over `Pack`; with an empty buffer the pass is already complete. */
  lemma LoopCompletesPass(ws: seq<nat>, maxWidth: int, containerWidth: int, drawn: seq<bool>)
    requires |drawn| == |ws|
    ensures var st := Loop(ws, maxWidth, containerWidth, drawn, |ws|);
      var rows := Pack(ws, maxWidth);
      && (|st.rowItems| > 0 ==>
            && |rows| == st.rowIndex + 1
            && st.commands + RowCommands(ws, st.rowItems, st.rowIndex, containerWidth, st.drawn) == PassCommands(ws, rows, containerWidth, drawn)
            && Marked(st.drawn, st.rowItems) == Marked(drawn, Flatten(rows)))
      && (|st.rowItems| == 0 ==>
            && |rows| == st.rowIndex
            && st.commands == PassCommands(ws, rows, containerWidth, drawn)
            && st.drawn == Marked(drawn, Flatten(rows)))
  {
    var s := Scan(ws, maxWidth, |ws|);
    LoopIsScan(ws, maxWidth, containerWidth, drawn, |ws|);
    if |s.current| > 0 {
      PassCommandsNext(ws, s.closed, s.current, containerWidth, drawn);
    }
  }

  /** The outcome of one layout pass: the number of rows, the commands
      sent and the flags left. */
  datatype PassResult = PassResult(rowCount: nat, commands: seq<Command>, drawn: seq<bool>)

  /** The pass as the program runs it: the loop over every image, then the
      flush of a non-empty buffer. */
  function LayoutResult(ws: seq<nat>, maxWidth: int, containerWidth: int, drawn: seq<bool>): PassResult
    requires |drawn| == |ws|
  {
    var st := Loop(ws, maxWidth, containerWidth, drawn, |ws|);
    if |st.rowItems| > 0 then
      PassResult(st.rowIndex + 1, st.commands + RowCommands(ws, st.rowItems, st.rowIndex, containerWidth, st.drawn), Marked(st.drawn, st.rowItems))
    else
      PassResult(st.rowIndex, st.commands, st.drawn)
  }

  /** The program's pass is the pass over the rows of `Pack`: as many rows,
      the commands of those rows in order and the flags they set. */
  lemma LayoutResultIsPass(ws: seq<nat>, maxWidth: int, containerWidth: int, drawn: seq<bool>)
    requires |drawn| == |ws|
    ensures LayoutResult(ws, maxWidth, containerWidth, drawn)
      == PassResult(|Pack(ws, maxWidth)|, PassCommands(ws, Pack(ws, maxWidth), containerWidth, drawn), Marked(drawn, Flatten(Pack(ws, maxWidth))))
  {
    LoopCompletesPass(ws, maxWidth, containerWidth, drawn);
  }
}
