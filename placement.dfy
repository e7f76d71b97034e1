/** The placement driver: the commands one layout pass sends to the GTK
    layout widget. An image that has never been drawn is `Put` (and from
    then on counts as drawn); an image already drawn is `Move`d. */
module Placement {
  import opened LayoutBasics
  import opened RowSpacer

  /** A call on the layout widget: `put` or `move_` of image `image`'s
      event box to (x, y). */
  datatype Command = Put(image: nat, x: int, y: int) | Move(image: nat, x: int, y: int)

  function Place(image: nat, x: int, y: int, drawn: bool): Command
  {
    if drawn then Move(image, x, y) else Put(image, x, y)
  }

  /** The `drawn` flags after the images of `items` have been set, one
      after the other. */
  function Marked(drawn: seq<bool>, items: seq<nat>): (marked: seq<bool>)
    ensures |marked| == |drawn|
  {
    if items == [] then drawn
    else
      var i := items[|items| - 1];
      var before := Marked(drawn, items[..|items| - 1]);
      if i < |before| then before[i := true] else before
  }

  /** A flag is set after marking exactly when it was set before or its
      image is among those marked. */
  lemma {:induction false} MarkedAt(drawn: seq<bool>, items: seq<nat>)
    ensures forall i :: 0 <= i < |drawn| ==> Marked(drawn, items)[i] == (drawn[i] || i in items)
  {
    if items != [] {
      var init := items[..|items| - 1];
      MarkedAt(drawn, init);
      assert items == init + [items[|items| - 1]];
    }
  }

  /** Setting the flags of `a` and then those of `b` sets those of
      `a + b`. */
  lemma {:induction false} MarkedAppend(drawn: seq<bool>, a: seq<nat>, b: seq<nat>)
    ensures Marked(Marked(drawn, a), b) == Marked(drawn, a + b)
  {
    if b == [] {
      assert a + b == a;
    } else {
      var init := b[..|b| - 1];
      MarkedAppend(drawn, a, init);
      assert (a + b)[..|a + b| - 1] == a + init;
    }
  }

  /** y coordinate of every image of row `rowIndex`. */
  function RowY(rowIndex: int, rowHeight: int, rowSpacing: int): int
  {
    rowHeight * rowIndex + rowSpacing
  }

  /** Commands for the images of `items`, left to right, at height `y`
      with the given gap, starting from the flags `drawn`. An image counts
      as drawn once an earlier command of the same row has put it. */
  function PlaceRow(ws: seq<nat>, items: seq<nat>, y: int, gap: int, drawn: seq<bool>): (cmds: seq<Command>)
    requires ValidRow(ws, items) && |drawn| == |ws|
    ensures |cmds| == |items|
  {
    PlacePrefix(ws, items, |items|, y, gap, drawn)
  }

  /** Commands for the first `n` images of `items`: the placement loop
      after `n` rounds. */
  function PlacePrefix(ws: seq<nat>, items: seq<nat>, n: nat, y: int, gap: int, drawn: seq<bool>): (cmds: seq<Command>)
    requires ValidRow(ws, items) && |drawn| == |ws| && n <= |items|
    ensures |cmds| == n
  {
    if n == 0 then []
    else
      var i := items[n - 1];
      PlacePrefix(ws, items, n - 1, y, gap, drawn)
        + [Place(i, XPos(ws, items, gap, n - 1), y, drawn[i] || Occurs(items, i, n - 1))]
  }

  /** Image `i` is among the first `n` images of `items`. */
  function Occurs(items: seq<nat>, i: nat, n: nat): bool
    requires n <= |items|
  {
    n > 0 && (items[n - 1] == i || Occurs(items, i, n - 1))
  }

  lemma {:induction false} OccursIn(items: seq<nat>, i: nat, n: nat)
    requires n <= |items|
    ensures Occurs(items, i, n) <==> i in items[..n]
  {
    if n > 0 {
      OccursIn(items, i, n - 1);
      assert items[..n] == items[..n - 1] + [items[n - 1]];
    }
  }

  /** Two command lists place the same images at the same spots, whatever
      their kinds. */
  predicate SamePositions(a: seq<Command>, b: seq<Command>)
  {
    |a| == |b| && forall j :: 0 <= j < |a| ==> a[j].image == b[j].image && a[j].x == b[j].x && a[j].y == b[j].y
  }

  /** The flags decide only whether a row's images are put or moved, not
      where they go. */
  lemma PlaceRowPositions(ws: seq<nat>, items: seq<nat>, y: int, gap: int, drawn: seq<bool>, drawn': seq<bool>)
    requires ValidRow(ws, items) && |drawn| == |ws| && |drawn'| == |ws|
    ensures SamePositions(PlaceRow(ws, items, y, gap, drawn), PlaceRow(ws, items, y, gap, drawn'))
  {
    PlaceRowAt(ws, items, y, gap, drawn);
    PlaceRowAt(ws, items, y, gap, drawn');
  }

  lemma SamePositionsConcat(a: seq<Command>, a': seq<Command>, b: seq<Command>, b': seq<Command>)
    requires SamePositions(a, a') && SamePositions(b, b')
    ensures SamePositions(a + b, a' + b')
  {
    forall j | 0 <= j < |a + b|
      ensures (a + b)[j].image == (a' + b')[j].image && (a + b)[j].x == (a' + b')[j].x && (a + b)[j].y == (a' + b')[j].y
    {
      if j < |a| {
        assert (a + b)[j] == a[j] && (a' + b')[j] == a'[j];
      } else {
        assert (a + b)[j] == b[j - |a|] && (a' + b')[j] == b'[j - |a|];
      }
    }
  }

  /** The flags before a pass decide only whether its images are put or
      moved: the images and their (x, y) depend on the rows and the
      container's width alone. */
  lemma {:induction false} PassCommandsPositions(ws: seq<nat>, rows: seq<seq<nat>>, containerWidth: int, drawn: seq<bool>, drawn': seq<bool>)
    requires ValidRows(ws, rows) && |drawn| == |ws| && |drawn'| == |ws|
    ensures SamePositions(PassCommands(ws, rows, containerWidth, drawn), PassCommands(ws, rows, containerWidth, drawn'))
  {
    if rows != [] {
      var init := rows[..|rows| - 1];
      var last := rows[|rows| - 1];
      PassCommandsPositions(ws, init, containerWidth, drawn, drawn');
      PlaceRowPositions(ws, last, RowY(|init|, RowHeight, RowSpacing), Gap(ws, last, containerWidth),
                        Marked(drawn, Flatten(init)), Marked(drawn', Flatten(init)));
      SamePositionsConcat(PassCommands(ws, init, containerWidth, drawn), PassCommands(ws, init, containerWidth, drawn'),
                          RowCommands(ws, last, |init|, containerWidth, Marked(drawn, Flatten(init))),
                          RowCommands(ws, last, |init|, containerWidth, Marked(drawn', Flatten(init))));
    }
  }

  /** Commands for row `rowIndex` of a pass in a container
      `containerWidth` wide. */
  function RowCommands(ws: seq<nat>, row: seq<nat>, rowIndex: nat, containerWidth: int, drawn: seq<bool>): seq<Command>
    requires ValidRow(ws, row) && |drawn| == |ws|
  {
    PlaceRow(ws, row, RowY(rowIndex, RowHeight, RowSpacing), Gap(ws, row, containerWidth), drawn)
  }

  /** Commands for all rows of a pass, row 0 first; each row sees the flags
      left by the rows before it. */
  function PassCommands(ws: seq<nat>, rows: seq<seq<nat>>, containerWidth: int, drawn: seq<bool>): seq<Command>
    requires ValidRows(ws, rows) && |drawn| == |ws|
  {
    if rows == [] then []
    else
      var init := rows[..|rows| - 1];
      PassCommands(ws, init, containerWidth, drawn)
        + RowCommands(ws, rows[|rows| - 1], |init|, containerWidth, Marked(drawn, Flatten(init)))
  }

  /** When the placement loop reaches the k-th image of a row, that
      image's flag is set exactly when it was set before the row or the
      image came earlier in the row; placing it sets the flag. */
  lemma MarkedNext(ws: seq<nat>, row: seq<nat>, drawn: seq<bool>, k: nat)
    requires ValidRow(ws, row) && |drawn| == |ws| && k < |row|
    ensures Marked(drawn, row[..k])[row[k]] == (drawn[row[k]] || Occurs(row, row[k], k))
    ensures Marked(drawn, row[..k + 1]) == Marked(drawn, row[..k])[row[k] := true]
  {
    var prefix := row[..k + 1];
    assert prefix[..k] == row[..k] && prefix[k] == row[k];
    MarkedAt(drawn, row[..k]);
    OccursIn(row, row[k], k);
  }

  /** Placing one row more extends the pass's commands by that row's
      commands. */
  lemma PassCommandsNext(ws: seq<nat>, rows: seq<seq<nat>>, row: seq<nat>, containerWidth: int, drawn: seq<bool>)
    requires ValidRows(ws, rows) && ValidRow(ws, row) && |drawn| == |ws|
    ensures ValidRows(ws, rows + [row])
    ensures PassCommands(ws, rows + [row], containerWidth, drawn)
      == PassCommands(ws, rows, containerWidth, drawn) + RowCommands(ws, row, |rows|, containerWidth, Marked(drawn, Flatten(rows)))
    ensures Marked(Marked(drawn, Flatten(rows)), row) == Marked(drawn, Flatten(rows + [row]))
  {
    assert (rows + [row])[..|rows|] == rows;
    MarkedAppend(drawn, Flatten(rows), row);
  }

  /** Each image of a row gets exactly one command, in row order: the k-th
      command is for the k-th image, at that image's cursor position and
      the row's height, and it is a `Put` exactly when the image was not
      drawn before and not already placed earlier in the same row. */
  lemma {:induction false} PlaceRowAt(ws: seq<nat>, items: seq<nat>, y: int, gap: int, drawn: seq<bool>)
    requires ValidRow(ws, items) && |drawn| == |ws|
    ensures |PlaceRow(ws, items, y, gap, drawn)| == |items|
    ensures forall k {:trigger PlaceRow(ws, items, y, gap, drawn)[k]} :: 0 <= k < |items| ==>
      PlaceRow(ws, items, y, gap, drawn)[k]
        == Place(items[k], XPos(ws, items, gap, k), y, drawn[items[k]] || items[k] in items[..k])
  {
    PlacePrefixAt(ws, items, |items|, y, gap, drawn);
    forall k | 0 <= k < |items| ensures Occurs(items, items[k], k) <==> items[k] in items[..k] {
      OccursIn(items, items[k], k);
    }
  }

  /** The k-th command of the first `n` is the k-th image's, at its cursor
      position. */
  lemma {:induction false} PlacePrefixAt(ws: seq<nat>, items: seq<nat>, n: nat, y: int, gap: int, drawn: seq<bool>)
    requires ValidRow(ws, items) && |drawn| == |ws| && n <= |items|
    ensures forall k {:trigger PlacePrefix(ws, items, n, y, gap, drawn)[k]} :: 0 <= k < n ==>
      PlacePrefix(ws, items, n, y, gap, drawn)[k]
        == Place(items[k], XPos(ws, items, gap, k), y, drawn[items[k]] || Occurs(items, items[k], k))
  {
    if n > 0 {
      PlacePrefixAt(ws, items, n - 1, y, gap, drawn);
      var cmds := PlacePrefix(ws, items, n, y, gap, drawn);
      var prev := PlacePrefix(ws, items, n - 1, y, gap, drawn);
      var i := items[n - 1];
      assert cmds == prev + [Place(i, XPos(ws, items, gap, n - 1), y, drawn[i] || Occurs(items, i, n - 1))];
      forall k | 0 <= k < n - 1
        ensures cmds[k] == Place(items[k], XPos(ws, items, gap, k), y, drawn[items[k]] || Occurs(items, items[k], k))
      {
        assert cmds[k] == prev[k];
      }
    }
  }

  /** Each image of a pass gets exactly one command, in the order the rows
      list them; a command is a `Put` exactly when its image was not drawn
      before the pass and was not placed earlier in the same pass. */
  lemma {:induction false} PassCommandsAt(ws: seq<nat>, rows: seq<seq<nat>>, containerWidth: int, drawn: seq<bool>)
    requires ValidRows(ws, rows) && |drawn| == |ws|
    ensures ValidRow(ws, Flatten(rows))
    ensures |PassCommands(ws, rows, containerWidth, drawn)| == |Flatten(rows)|
    ensures forall j :: 0 <= j < |Flatten(rows)| ==>
      var i := Flatten(rows)[j];
      && PassCommands(ws, rows, containerWidth, drawn)[j].image == i
      && (PassCommands(ws, rows, containerWidth, drawn)[j].Put? <==> !drawn[i] && i !in Flatten(rows)[..j])
  {
    if rows != [] {
      var init := rows[..|rows| - 1];
      var last := rows[|rows| - 1];
      PassCommandsAt(ws, init, containerWidth, drawn);
      var before := Flatten(init);
      var marked := Marked(drawn, before);
      MarkedAt(drawn, before);
      var gap := Gap(ws, last, containerWidth);
      var y := RowY(|init|, RowHeight, RowSpacing);
      PlaceRowAt(ws, last, y, gap, marked);
      var all := Flatten(rows);
      var cmds := PassCommands(ws, rows, containerWidth, drawn);
      var prev := PassCommands(ws, init, containerWidth, drawn);
      var rowCmds := RowCommands(ws, last, |init|, containerWidth, marked);
      assert all == before + last;
      assert cmds == prev + rowCmds;
      forall j | 0 <= j < |all|
        ensures cmds[j].image == all[j]
        ensures cmds[j].Put? <==> !drawn[all[j]] && all[j] !in all[..j]
      {
        PrefixOfConcat(before, last, j);
        if j < |before| {
          assert cmds[j] == prev[j] && all[j] == before[j];
        } else {
          var k := j - |before|;
          assert cmds[j] == rowCmds[k] && all[j] == last[k];
          assert marked[last[k]] == (drawn[last[k]] || last[k] in before);
        }
      }
    }
  }

  lemma PrefixOfConcat<T>(a: seq<T>, b: seq<T>, j: nat)
    requires j <= |a| + |b|
    ensures j <= |a| ==> (a + b)[..j] == a[..j]
    ensures j >= |a| ==> (a + b)[..j] == a + b[..j - |a|]
  {
    if j >= |a| {
      assert (a + b)[..j] == a + b[..j - |a|];
    }
  }

  /** Where a row's images sit among the pass's commands: image `k` of row
      `r` is command `|Flatten(rows[..r])| + k`, at that image's cursor
      position in the row and at the row's height. */
  lemma {:induction false} PassCommandsRow(ws: seq<nat>, rows: seq<seq<nat>>, containerWidth: int, drawn: seq<bool>, r: nat, k: nat)
    requires ValidRows(ws, rows) && |drawn| == |ws|
    requires r < |rows| && k < |rows[r]|
    ensures |Flatten(rows[..r])| + k < |PassCommands(ws, rows, containerWidth, drawn)|
    ensures var c := PassCommands(ws, rows, containerWidth, drawn)[|Flatten(rows[..r])| + k];
      && c.image == rows[r][k]
      && c.x == XPos(ws, rows[r], Gap(ws, rows[r], containerWidth), k)
      && c.y == RowY(r, RowHeight, RowSpacing)
  {
    var init := rows[..|rows| - 1];
    var last := rows[|rows| - 1];
    PassCommandsAt(ws, init, containerWidth, drawn);
    var before := PassCommands(ws, init, containerWidth, drawn);
    if r < |rows| - 1 {
      assert init[r] == rows[r] && init[..r] == rows[..r];
      PassCommandsRow(ws, init, containerWidth, drawn, r, k);
      assert PassCommands(ws, rows, containerWidth, drawn)[|Flatten(rows[..r])| + k] == before[|Flatten(rows[..r])| + k];
    } else {
      assert rows[..r] == init;
      var marked := Marked(drawn, Flatten(init));
      PlaceRowAt(ws, last, RowY(r, RowHeight, RowSpacing), Gap(ws, last, containerWidth), marked);
      assert PassCommands(ws, rows, containerWidth, drawn)[|Flatten(rows[..r])| + k]
          == RowCommands(ws, last, r, containerWidth, marked)[k];
    }
  }

  /** Image `k` of row `r` is element `|Flatten(rows[..r])| + k` of the
      rows laid end to end. */
  lemma {:induction false} FlattenAt(rows: seq<seq<nat>>, r: nat, k: nat)
    requires r < |rows| && k < |rows[r]|
    ensures |Flatten(rows[..r])| + k < |Flatten(rows)|
    ensures Flatten(rows)[|Flatten(rows[..r])| + k] == rows[r][k]
  {
    var init := rows[..|rows| - 1];
    if r < |rows| - 1 {
      assert init[r] == rows[r] && init[..r] == rows[..r];
      FlattenAt(init, r, k);
    } else {
      assert rows[..r] == init;
    }
  }
}
