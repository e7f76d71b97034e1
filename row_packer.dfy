/** The row packer: how one layout pass splits the ordered image list into
    rows. `Scan(ws, maxWidth, k)` is the state of the packing loop after it
    has seen the first `k` images; `Pack` adds the final flush. */
module RowPacker {
  import opened LayoutBasics

  /** State of the packing loop: rows already flushed, the row buffer being
      filled and the buffer's running width. */
  datatype ScanState = ScanState(closed: seq<seq<nat>>, current: seq<nat>, width: int)

  /** One iteration for image `k`: when its width plus the running width
      reaches `maxWidth`, the buffer is flushed first (even when it is
      empty); then the image is pushed. */
  function Step(ws: seq<nat>, maxWidth: int, s: ScanState, k: nat): ScanState
    requires k < |ws|
  {
    if ws[k] + s.width >= maxWidth then
      ScanState(s.closed + [s.current], [k], ws[k])
    else
      ScanState(s.closed, s.current + [k], s.width + ws[k])
  }

  /** State of the packing loop after the first `k` images. */
  function Scan(ws: seq<nat>, maxWidth: int, k: nat): (s: ScanState)
    requires k <= |ws|
    ensures ValidRows(ws, s.closed) && ValidRow(ws, s.current)
    decreases k
  {
    if k == 0 then ScanState([], [], 0)
    else Step(ws, maxWidth, Scan(ws, maxWidth, k - 1), k - 1)
  }

  /** The rows of one pass: the flushed rows, then the buffer if it is
      non-empty. */
  function Pack(ws: seq<nat>, maxWidth: int): (rows: seq<seq<nat>>)
    ensures ValidRows(ws, rows)
  {
    var s := Scan(ws, maxWidth, |ws|);
    if |s.current| > 0 then s.closed + [s.current] else s.closed
  }

  /** The buffer is always the run of images just before `k`, and it is
      empty only before the first image. */
  lemma {:induction false} ScanCurrent(ws: seq<nat>, maxWidth: int, k: nat)
    requires k <= |ws|
    ensures var s := Scan(ws, maxWidth, k);
      && |s.current| <= k
      && s.current == Range(k - |s.current|, k)
      && (k > 0 <==> |s.current| > 0)
  {
    if k > 0 {
      ScanCurrent(ws, maxWidth, k - 1);
      StepCurrent(ws, maxWidth, Scan(ws, maxWidth, k - 1), k - 1);
    }
  }

  lemma StepCurrent(ws: seq<nat>, maxWidth: int, s: ScanState, k: nat)
    requires k < |ws| && |s.current| <= k
    requires s.current == Range(k - |s.current|, k)
    ensures var s' := Step(ws, maxWidth, s, k);
      |s'.current| <= k + 1 && s'.current == Range(k + 1 - |s'.current|, k + 1) && |s'.current| > 0
  {
    assert [k] == Range(k, k + 1);
    if ws[k] + s.width < maxWidth {
      RangeSplit(k - |s.current|, k, k + 1);
    }
  }

  /** The running width is the width of the buffer. */
  lemma {:induction false} ScanWidth(ws: seq<nat>, maxWidth: int, k: nat)
    requires k <= |ws|
    ensures Scan(ws, maxWidth, k).width == RowWidth(ws, Scan(ws, maxWidth, k).current)
  {
    if k > 0 {
      ScanWidth(ws, maxWidth, k - 1);
      StepWidth(ws, maxWidth, Scan(ws, maxWidth, k - 1), k - 1);
    }
  }

  lemma StepWidth(ws: seq<nat>, maxWidth: int, s: ScanState, k: nat)
    requires k < |ws| && ValidRow(ws, s.current)
    requires s.width == RowWidth(ws, s.current)
    ensures var s' := Step(ws, maxWidth, s, k);
      ValidRow(ws, s'.current) && s'.width == RowWidth(ws, s'.current)
  {
    if ws[k] + s.width >= maxWidth {
      RowWidthSnoc(ws, [], k);
      assert [] + [k] == [k];
    } else {
      RowWidthSnoc(ws, s.current, k);
    }
  }

  /** Pushing image `k` adds its width to the row's. */
  lemma RowWidthSnoc(ws: seq<nat>, row: seq<nat>, k: nat)
    requires k < |ws| && ValidRow(ws, row)
    ensures ValidRow(ws, row + [k])
    ensures RowWidth(ws, row + [k]) == RowWidth(ws, row) + ws[k]
  {
    var next := row + [k];
    assert next[..|next| - 1] == row && next[|next| - 1] == k;
  }

  /** The flushed rows, laid end to end, are every image before the
      buffer, in order. */
  lemma {:induction false} ScanFlushed(ws: seq<nat>, maxWidth: int, k: nat)
    requires k <= |ws|
    ensures |Scan(ws, maxWidth, k).current| <= k
    ensures Flatten(Scan(ws, maxWidth, k).closed) == Range(0, k - |Scan(ws, maxWidth, k).current|)
  {
    if k > 0 {
      ScanFlushed(ws, maxWidth, k - 1);
      ScanCurrent(ws, maxWidth, k - 1);
      StepFlushed(ws, maxWidth, Scan(ws, maxWidth, k - 1), k - 1);
    }
  }

  lemma StepFlushed(ws: seq<nat>, maxWidth: int, s: ScanState, k: nat)
    requires k < |ws| && |s.current| <= k
    requires s.current == Range(k - |s.current|, k)
    requires Flatten(s.closed) == Range(0, k - |s.current|)
    ensures var s' := Step(ws, maxWidth, s, k);
      |s'.current| <= k + 1 && Flatten(s'.closed) == Range(0, k + 1 - |s'.current|)
  {
    if ws[k] + s.width >= maxWidth {
      FlattenSnoc(s.closed, s.current);
      RangeSplit(0, k - |s.current|, k);
    }
  }

  /** The three facts above together. */
  lemma ScanShape(ws: seq<nat>, maxWidth: int, k: nat)
    requires k <= |ws|
    ensures var s := Scan(ws, maxWidth, k);
      && |s.current| <= k
      && s.current == Range(k - |s.current|, k)
      && Flatten(s.closed) == Range(0, k - |s.current|)
      && s.width == RowWidth(ws, s.current)
      && (k > 0 <==> |s.current| > 0)
  {
    ScanCurrent(ws, maxWidth, k);
    ScanWidth(ws, maxWidth, k);
    ScanFlushed(ws, maxWidth, k);
  }

  /** Width bound of a scan state: flushed rows of two or more images are
      narrower than `maxWidth`, and so is a buffer of two or more. */
  ghost predicate RowsBounded(ws: seq<nat>, maxWidth: int, s: ScanState)
    requires ValidRows(ws, s.closed)
  {
    && (forall j :: 0 <= j < |s.closed| && |s.closed[j]| >= 2 ==> RowWidth(ws, s.closed[j]) < maxWidth)
    && (|s.current| >= 2 ==> s.width < maxWidth)
  }

  lemma {:induction false} ScanRowBound(ws: seq<nat>, maxWidth: int, k: nat)
    requires k <= |ws|
    ensures RowsBounded(ws, maxWidth, Scan(ws, maxWidth, k))
  {
    if k > 0 {
      ScanRowBound(ws, maxWidth, k - 1);
      RowBoundNext(ws, maxWidth, k);
    }
  }

  /** One image more keeps the width bound: a row is only ever extended
      when the extended width stays below `maxWidth`. */
  lemma RowBoundNext(ws: seq<nat>, maxWidth: int, k: nat)
    requires 0 < k <= |ws|
    requires RowsBounded(ws, maxWidth, Scan(ws, maxWidth, k - 1))
    ensures RowsBounded(ws, maxWidth, Scan(ws, maxWidth, k))
  {
    ScanWidth(ws, maxWidth, k - 1);
    var s := Scan(ws, maxWidth, k - 1);
    var s' := Scan(ws, maxWidth, k);
    if ws[k - 1] + s.width >= maxWidth {
      assert s'.closed == s.closed + [s.current];
      assert forall j :: 0 <= j < |s.closed| ==> s'.closed[j] == s.closed[j];
      assert s'.closed[|s.closed|] == s.current;
    }
  }

  /** Greedy closing of a scan state: every row after the first is
      non-empty, and the row before it was closed only because that row's
      first image would have taken it to `maxWidth` or beyond. */
  ghost predicate ClosedGreedily(ws: seq<nat>, maxWidth: int, s: ScanState)
    requires ValidRows(ws, s.closed) && ValidRow(ws, s.current)
  {
    var rows := s.closed + [s.current];
    && (|s.closed| > 0 ==> |s.current| > 0)
    && forall j :: 1 <= j < |rows| ==>
         |rows[j]| > 0 && RowWidth(ws, s.closed[j - 1]) + ws[rows[j][0]] >= maxWidth
  }

  lemma {:induction false} ScanGreedy(ws: seq<nat>, maxWidth: int, k: nat)
    requires k <= |ws|
    ensures ClosedGreedily(ws, maxWidth, Scan(ws, maxWidth, k))
  {
    if k > 0 {
      ScanGreedy(ws, maxWidth, k - 1);
      GreedyNext(ws, maxWidth, k);
    }
  }

  /** One image more keeps the rows greedily closed: a flush happens
      exactly when the new image does not fit. */
  lemma GreedyNext(ws: seq<nat>, maxWidth: int, k: nat)
    requires 0 < k <= |ws|
    requires ClosedGreedily(ws, maxWidth, Scan(ws, maxWidth, k - 1))
    ensures ClosedGreedily(ws, maxWidth, Scan(ws, maxWidth, k))
  {
    ScanWidth(ws, maxWidth, k - 1);
    var s := Scan(ws, maxWidth, k - 1);
    var s' := Scan(ws, maxWidth, k);
    var rows := s.closed + [s.current];
    var rows' := s'.closed + [s'.current];
    if ws[k - 1] + s.width >= maxWidth {
      assert s'.closed == s.closed + [s.current] && s'.current == [k - 1];
      forall j | 1 <= j < |rows'|
        ensures |rows'[j]| > 0 && RowWidth(ws, s'.closed[j - 1]) + ws[rows'[j][0]] >= maxWidth
      {
        if j == |rows| {
          assert rows'[j] == [k - 1] && s'.closed[j - 1] == s.current;
        } else {
          assert rows'[j] == rows[j] && s'.closed[j - 1] == s.closed[j - 1];
        }
      }
    } else {
      assert s'.closed == s.closed && s'.current == s.current + [k - 1];
      forall j | 1 <= j < |rows'|
        ensures |rows'[j]| > 0 && RowWidth(ws, s'.closed[j - 1]) + ws[rows'[j][0]] >= maxWidth
      {
        if j == |s.closed| {
          assert rows'[j] == s.current + [k - 1] && rows[j] == s.current;
        } else {
          assert rows'[j] == rows[j];
        }
      }
    }
  }

  /** Empty rows of a scan state after `k` images: a flushed row is empty
      only when it is row 0 and the first image alone reaches `maxWidth`;
      conversely such a first image always flushes an empty row 0. */
  ghost predicate EmptyOnlyFirst(ws: seq<nat>, maxWidth: int, s: ScanState, k: nat)
  {
    && (forall j :: 0 <= j < |s.closed| && s.closed[j] == [] ==> j == 0 && |ws| > 0 && ws[0] >= maxWidth)
    && (k > 0 && |ws| > 0 && ws[0] >= maxWidth ==> |s.closed| > 0 && s.closed[0] == [])
  }

  lemma {:induction false} ScanEmptyRow(ws: seq<nat>, maxWidth: int, k: nat)
    requires k <= |ws|
    ensures EmptyOnlyFirst(ws, maxWidth, Scan(ws, maxWidth, k), k)
  {
    if k > 0 {
      ScanEmptyRow(ws, maxWidth, k - 1);
      EmptyRowNext(ws, maxWidth, k);
    }
  }

  /** One image more flushes an empty buffer only for the first image. */
  lemma EmptyRowNext(ws: seq<nat>, maxWidth: int, k: nat)
    requires 0 < k <= |ws|
    requires EmptyOnlyFirst(ws, maxWidth, Scan(ws, maxWidth, k - 1), k - 1)
    ensures EmptyOnlyFirst(ws, maxWidth, Scan(ws, maxWidth, k), k)
  {
    ScanWidth(ws, maxWidth, k - 1);
    ScanCurrent(ws, maxWidth, k - 1);
    var s := Scan(ws, maxWidth, k - 1);
    var s' := Scan(ws, maxWidth, k);
    if ws[k - 1] + s.width >= maxWidth {
      assert s'.closed == s.closed + [s.current];
      assert forall j :: 0 <= j < |s.closed| ==> s'.closed[j] == s.closed[j];
      assert s'.closed[|s.closed|] == s.current;
    }
  }

  /** Order and coverage: the rows of a pass, laid end to end, are the
      image list in its original order, each image exactly once. */
  lemma PackCoversInOrder(ws: seq<nat>, maxWidth: int)
    ensures Flatten(Pack(ws, maxWidth)) == Range(0, |ws|)
  {
    var s := Scan(ws, maxWidth, |ws|);
    ScanShape(ws, maxWidth, |ws|);
    if |s.current| > 0 {
      assert Flatten(s.closed + [s.current]) == Flatten(s.closed) + s.current;
      RangeSplit(0, |ws| - |s.current|, |ws|);
    }
  }

  /** Row width bound: only a row of a single image may reach or exceed
      `maxWidth`. */
  lemma PackRowWidthBound(ws: seq<nat>, maxWidth: int)
    ensures var rows := Pack(ws, maxWidth);
      forall j :: 0 <= j < |rows| && |rows[j]| >= 2 ==> RowWidth(ws, rows[j]) < maxWidth
  {
    ScanShape(ws, maxWidth, |ws|);
    ScanRowBound(ws, maxWidth, |ws|);
  }

  /** Greedy maximality: every row but the last was closed only because the
      next row's first image would have taken it to `maxWidth` or beyond. */
  lemma PackGreedy(ws: seq<nat>, maxWidth: int)
    ensures var rows := Pack(ws, maxWidth);
      forall j :: 1 <= j < |rows| ==>
        |rows[j]| > 0 && RowWidth(ws, rows[j - 1]) + ws[rows[j][0]] >= maxWidth
  {
    var rows := Pack(ws, maxWidth);
    if ws != [] {
      var s := Scan(ws, maxWidth, |ws|);
      assert rows == s.closed + [s.current] by { PackOfScan(ws, maxWidth); }
      ScanGreedy(ws, maxWidth, |ws|);
      forall j | 1 <= j < |rows|
        ensures |rows[j]| > 0 && RowWidth(ws, rows[j - 1]) + ws[rows[j][0]] >= maxWidth
      {
        assert rows[j - 1] == s.closed[j - 1];
      }
    }
  }

  /** With at least one image the buffer is non-empty at the end of the
      loop, so the rows of the pass are the flushed rows and the buffer. */
  lemma PackOfScan(ws: seq<nat>, maxWidth: int)
    requires ws != []
    ensures var s := Scan(ws, maxWidth, |ws|);
      |s.current| > 0 && Pack(ws, maxWidth) == s.closed + [s.current]
  {
    ScanCurrent(ws, maxWidth, |ws|);
  }

  /** Empty row: the only row that can be empty is row 0, and it is empty
      exactly when the first image alone reaches `maxWidth`. With no images
      there are no rows. */
  lemma PackEmptyRow(ws: seq<nat>, maxWidth: int)
    ensures var rows := Pack(ws, maxWidth);
      && (forall j :: 0 <= j < |rows| && rows[j] == [] ==> j == 0)
      && (|rows| > 0 && rows[0] == [] <==> |ws| > 0 && ws[0] >= maxWidth)
      && (rows == [] <==> ws == [])
  {
    ScanEmptyRow(ws, maxWidth, |ws|);
    var s := Scan(ws, maxWidth, |ws|);
    var rows := Pack(ws, maxWidth);
    if ws != [] {
      assert rows == s.closed + [s.current] by { PackOfScan(ws, maxWidth); }
      assert forall j :: 0 <= j < |s.closed| ==> rows[j] == s.closed[j];
      assert rows[|s.closed|] == s.current;
    }
  }
}
