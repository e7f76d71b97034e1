/** Worked layouts: small image lists packed and placed end to end, with
    the coordinates the program computes for them. */
module Scenarios {
  import opened LayoutBasics
  import opened RowPacker
  import opened RowSpacer
  import opened Placement
  import opened LayoutPass
  import opened Gallery

  /** Three 300-pixel images in a 1000-pixel window share one row: the
      100 free pixels make four gaps of 25, so the images are put at
      x = 25, 350 and 675 on the first row's line, y = 10. */
  lemma OneEvenRow()
    ensures Pack([300, 300, 300], 1000) == [[0, 1, 2]]
    ensures PassCommands([300, 300, 300], [[0, 1, 2]], 1000, [false, false, false])
      == [Put(0, 25, 10), Put(1, 350, 10), Put(2, 675, 10)]
  {
    var ws: seq<nat> := [300, 300, 300];
    var row: seq<nat> := [0, 1, 2];
    ThreeImages(1000);
    OneRowPass(1000, [false, false, false]);
    assert Gap(ws, row, 1000) == 25;
    ThreeImageRow(25, false);
  }

  /** Three 300-pixel images fit in one row of any window wider than 900
      pixels; the row is 900 pixels wide. */
  lemma ThreeImages(maxWidth: int)
    requires maxWidth > 900
    ensures Scan([300, 300, 300], maxWidth, 3) == ScanState([], [0, 1, 2], 900)
    ensures Pack([300, 300, 300], maxWidth) == [[0, 1, 2]]
    ensures RowWidth([300, 300, 300], [0, 1, 2]) == 900
  {
    var ws: seq<nat> := [300, 300, 300];
    var row: seq<nat> := [0, 1, 2];
    assert Scan(ws, maxWidth, 1) == ScanState([], [0], 300);
    assert Scan(ws, maxWidth, 2) == ScanState([], [0, 1], 600);
    assert row[..1] == [0] && row[..2] == [0, 1] && [0, 1][..1] == [0] && [0][..0] == [];
    assert RowWidth(ws, [0]) == 300;
    assert RowWidth(ws, [0, 1]) == 600;
  }

  /** The row of three 300-pixel images at a given gap: the cursor moves
      300 pixels plus one gap per image, and all three get the same kind of
      command when their flags agree. */
  lemma ThreeImageRow(gap: int, b: bool)
    ensures PlaceRow([300, 300, 300], [0, 1, 2], 10, gap, [b, b, b])
      == [Place(0, gap, 10, b), Place(1, 2 * gap + 300, 10, b), Place(2, 3 * gap + 600, 10, b)]
  {
    var ws: seq<nat> := [300, 300, 300];
    var row: seq<nat> := [0, 1, 2];
    var cmds := PlaceRow(ws, row, 10, gap, [b, b, b]);
    PlaceRowAt(ws, row, 10, gap, [b, b, b]);
    assert row[..1] == [0] && row[..2] == [0, 1];
    assert XPos(ws, row, gap, 1) == 2 * gap + 300;
    assert cmds[0] == Place(0, gap, 10, b);
    assert cmds[1] == Place(1, 2 * gap + 300, 10, b);
    assert cmds[2] == Place(2, 3 * gap + 600, 10, b);
  }

  /** Two 600-pixel images do not fit next to each other in 1000 pixels:
      each gets a row of its own, centred at x = 200, on the lines
      y = 10 and y = 208. */
  lemma TwoRows()
    ensures Pack([600, 600], 1000) == [[0], [1]]
    ensures PassCommands([600, 600], [[0], [1]], 1000, [false, false])
      == [Put(0, 200, 10), Put(1, 200, 208)]
  {
    var ws: seq<nat> := [600, 600];
    assert Pack(ws, 1000) == [[0], [1]] by {
      assert Scan(ws, 1000, 1) == ScanState([], [0], 600);
      assert Scan(ws, 1000, 2) == ScanState([[0]], [1], 600);
    }
    assert TruncDiv(1000 - ws[0], 2) == 200 && TruncDiv(1000 - ws[1], 2) == 200;
    TwoSingleRows(ws, 1000, [false, false]);
  }

  /** Two images, one per row: each is one truncated half of its free
      space in from the left, the first on line y = 10 and the second on
      y = 208; the second sees the first one's flag set, not its own. */
  lemma TwoSingleRows(ws: seq<nat>, containerWidth: int, drawn: seq<bool>)
    requires |ws| == 2 && |drawn| == 2
    ensures PassCommands(ws, [[0], [1]], containerWidth, drawn)
      == [Place(0, TruncDiv(containerWidth - ws[0], 2), 10, drawn[0]),
          Place(1, TruncDiv(containerWidth - ws[1], 2), 208, drawn[1])]
  {
    var marked := Marked(drawn, [0]);
    var first := RowCommands(ws, [0], 0, containerWidth, drawn);
    var second := RowCommands(ws, [1], 1, containerWidth, marked);
    assert PassCommands(ws, [[0], [1]], containerWidth, drawn) == first + second by {
      TwoRowPass(ws, [0], [1], containerWidth, drawn);
    }
    assert first == [Place(0, TruncDiv(containerWidth - ws[0], 2), 10, drawn[0])] by {
      SingleImageRow(ws, 0, 0, containerWidth, drawn);
    }
    assert second == [Place(1, TruncDiv(containerWidth - ws[1], 2), 208, drawn[1])] by {
      assert marked[1] == drawn[1] by { MarkedAt(drawn, [0]); }
      SingleImageRow(ws, 1, 1, containerWidth, marked);
    }
    assert first + second
      == [Place(0, TruncDiv(containerWidth - ws[0], 2), 10, drawn[0]),
          Place(1, TruncDiv(containerWidth - ws[1], 2), 208, drawn[1])];
  }

  /** A pass over two rows: the first row's commands, then the second's,
      which sees the flags the first row left. */
  lemma TwoRowPass(ws: seq<nat>, a: seq<nat>, b: seq<nat>, containerWidth: int, drawn: seq<bool>)
    requires ValidRow(ws, a) && ValidRow(ws, b) && |drawn| == |ws|
    ensures PassCommands(ws, [a, b], containerWidth, drawn)
      == RowCommands(ws, a, 0, containerWidth, drawn) + RowCommands(ws, b, 1, containerWidth, Marked(drawn, a))
  {
    var empty: seq<seq<nat>> := [];
    assert PassCommands(ws, [a], containerWidth, drawn) == RowCommands(ws, a, 0, containerWidth, drawn) by {
      PassCommandsNext(ws, empty, a, containerWidth, drawn);
      assert empty + [a] == [a];
    }
    assert Flatten([a]) == a by { FlattenSnoc(empty, a); }
    assert PassCommands(ws, [a, b], containerWidth, drawn)
        == PassCommands(ws, [a], containerWidth, drawn) + RowCommands(ws, b, 1, containerWidth, Marked(drawn, Flatten([a]))) by {
      PassCommandsNext(ws, [a], b, containerWidth, drawn);
      assert [a] + [b] == [a, b];
    }
  }

  /** A row holding a single image: one command, at the row's line and
      one gap in from the left edge. */
  lemma SingleImageRow(ws: seq<nat>, i: nat, r: nat, containerWidth: int, drawn: seq<bool>)
    requires i < |ws| && |drawn| == |ws|
    ensures RowCommands(ws, [i], r, containerWidth, drawn)
      == [Place(i, TruncDiv(containerWidth - ws[i], 2), 198 * r + 10, drawn[i])]
  {
    assert [i][..0] == [];
    assert RowWidth(ws, [i]) == ws[i];
    assert RowY(r, RowHeight, RowSpacing) == 198 * r + 10 by { assert RowHeight == 198; }
    var gap := Gap(ws, [i], containerWidth);
    assert XPos(ws, [i], gap, 0) == gap;
    assert gap == TruncDiv(containerWidth - ws[i], 2);
    assert PlaceRow(ws, [i], 198 * r + 10, gap, drawn) == [Place(i, gap, 198 * r + 10, drawn[i])];
  }

  /** An image wider than the window is flushed behind an empty row 0,
      so it lands on the second line (y = 208), and the negative free
      space -201 gives the truncated gap -100 (not the floored -101). */
  lemma WideImage()
    ensures Pack([1201], 1000) == [[], [0]]
    ensures PassCommands([1201], [[], [0]], 1000, [false]) == [Put(0, -100, 208)]
    ensures |Pack([1201], 1000)| * RowHeight == 396
    ensures TruncDiv(-201, 2) == -100 != -201 / 2
  {
    var ws: seq<nat> := [1201];
    assert Scan(ws, 1000, 1) == ScanState([[]], [0], 1201);
    assert Gap(ws, [0], 1000) == -100;
  }

  /** A pass over the single row of three 300-pixel images places it on
      the first line. */
  lemma OneRowPass(containerWidth: int, drawn: seq<bool>)
    requires |drawn| == 3
    ensures PassCommands([300, 300, 300], [[0, 1, 2]], containerWidth, drawn)
      == PlaceRow([300, 300, 300], [0, 1, 2], 10, Gap([300, 300, 300], [0, 1, 2], containerWidth), drawn)
  {
    assert [[0, 1, 2]][..0] == [];
    assert RowHeight == 198;
  }

  /** In the default 1250-pixel widget the row's gap is 87 and its images
      sit at x = 87, 474 and 861. */
  lemma DefaultWidthRow(b: bool)
    ensures Gap([300, 300, 300], [0, 1, 2], 1250) == 87
    ensures PlaceRow([300, 300, 300], [0, 1, 2], 10, 87, [b, b, b])
      == [Place(0, 87, 10, b), Place(1, 474, 10, b), Place(2, 861, 10, b)]
  {
    ThreeImages(1250);
    ThreeImageRow(87, b);
  }

  /** The pass run by a resize centres its rows in the layout widget at
      its old width: a window opened on three 300-pixel images and then
      widened to 1500 pixels moves them to x = 87, 474 and 861 (gaps of
      350 / 4 in the default 1250-pixel widget), not to 150, 600 and 1050.
      The pass then resizes the widget to 1500 pixels. */
  method StaleWidthResize() returns (initial: seq<Command>, resized: seq<Command>, width: int)
    ensures initial == [Put(0, 87, 10), Put(1, 474, 10), Put(2, 861, 10)]
    ensures resized == [Move(0, 87, 10), Move(1, 474, 10), Move(2, 861, 10)]
    ensures width == 1500
  {
    var ws: seq<nat> := [300, 300, 300];
    ThreeImages(1500);
    ThreeImages(1250);
    DefaultWidthRow(false);
    DefaultWidthRow(true);
    OneRowPass(1250, [false, false, false]);
    OneRowPass(1250, [true, true, true]);
    assert seq(3, _ => false) == [false, false, false];
    var window := new AppWindow(ws);
    initial := window.commands;
    assert |initial| == 3;
    assert window.drawn == [true, true, true];
    window.SizeAllocate(1500, 1400);
    resized := window.commands[3..];
    width := window.containerWidth;
  }

  /** A resize that keeps the width but changes the height still runs a
      pass, and that pass re-centres the rows: after widening to 1500
      pixels the images sit at x = 87, 474 and 861 (centred in the old
      1250-pixel widget); a second resize to the same width moves them to
      x = 150, 600 and 1050, and a third one repeats those positions. */
  method HeightOnlyRecentre() returns (widened: seq<Command>, settled: seq<Command>, repeated: seq<Command>)
    ensures widened == [Move(0, 87, 10), Move(1, 474, 10), Move(2, 861, 10)]
    ensures settled == [Move(0, 150, 10), Move(1, 600, 10), Move(2, 1050, 10)]
    ensures repeated == settled
  {
    var ws: seq<nat> := [300, 300, 300];
    ThreeImages(1500);
    ThreeImages(1250);
    DefaultWidthRow(true);
    OneRowPass(1250, [true, true, true]);
    OneRowPass(1500, [true, true, true]);
    assert Gap(ws, [0, 1, 2], 1500) == 150;
    ThreeImageRow(150, true);
    var window := new AppWindow(ws);
    assert |window.commands| == 3;
    assert window.drawn == [true, true, true];
    window.SizeAllocate(1500, 1400);
    widened := window.commands[3..];
    assert |window.commands| == 6 && window.containerWidth == 1500;
    assert window.drawn == [true, true, true];
    window.SizeAllocate(1500, 1500);
    settled := window.commands[6..];
    assert |window.commands| == 9;
    assert window.drawn == [true, true, true];
    window.SizeAllocate(1500, 1600);
    repeated := window.commands[9..];
  }
}
