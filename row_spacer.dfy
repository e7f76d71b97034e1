/** The row spacer: how one row is spread across the container. The free
    space of the row is split into `|row| + 1` equal gaps with `i32`
    division; the first image starts one gap in, and each next image one
    gap after the previous image's right edge. The free space is not
    clamped, so a row wider than the container gets a gap of zero or less. */
module RowSpacer {
  import opened LayoutBasics

  /** The even gap of `row` in a container `containerWidth` wide. */
  function Gap(ws: seq<nat>, row: seq<nat>, containerWidth: int): int
    requires ValidRow(ws, row)
  {
    TruncDiv(containerWidth - RowWidth(ws, row), |row| + 1)
  }

  /** The `|row| + 1` gaps together take up the free space of the row,
      short of it by less than one gap per slot; a negative free space
      gives a gap of zero or less, rounded toward zero. */
  lemma GapBounds(ws: seq<nat>, row: seq<nat>, containerWidth: int)
    requires ValidRow(ws, row)
    ensures var gap := Gap(ws, row, containerWidth);
      var free := containerWidth - RowWidth(ws, row);
      var slots := |row| + 1;
      && (free >= 0 ==> 0 <= slots * gap <= free < slots * gap + slots)
      && (free < 0 ==> slots * gap - slots < free <= slots * gap <= 0)
  {
    var free := containerWidth - RowWidth(ws, row);
    TruncDivBounds(free, |row| + 1);
    assert Gap(ws, row, containerWidth) == TruncDiv(free, |row| + 1);
  }

  /** The placement cursor at the `k`-th image of `row` (for `k == |row|`,
      where an image after the last one would go): it starts one gap in
      and advances by each image's width plus one gap. */
  function XPos(ws: seq<nat>, row: seq<nat>, gap: int, k: nat): int
    requires ValidRow(ws, row) && k <= |row|
  {
    if k == 0 then gap else XPos(ws, row, gap, k - 1) + ws[row[k - 1]] + gap
  }

  /** The cursor at the `k`-th image is `k + 1` gaps plus the widths of
      the images before it. */
  lemma {:induction false} XPosClosedForm(ws: seq<nat>, row: seq<nat>, gap: int, k: nat)
    requires ValidRow(ws, row) && k <= |row|
    ensures XPos(ws, row, gap, k) == (k + 1) * gap + RowWidth(ws, row[..k])
  {
    if k > 0 {
      XPosClosedForm(ws, row, gap, k - 1);
      assert row[..k][..k - 1] == row[..k - 1];
      assert (k + 1) * gap == k * gap + gap;
    }
  }

  /** When the row fits the container, every image starts at or after
      x = 0, images do not overlap, and the last image's right edge plus
      one gap stays within the container. */
  lemma RowFitsContainer(ws: seq<nat>, row: seq<nat>, containerWidth: int)
    requires ValidRow(ws, row) && |row| > 0
    requires RowWidth(ws, row) <= containerWidth
    ensures var gap := Gap(ws, row, containerWidth);
      && 0 <= gap
      && XPos(ws, row, gap, 0) >= 0
      && (forall k :: 0 <= k < |row| - 1 ==> XPos(ws, row, gap, k) + ws[row[k]] <= XPos(ws, row, gap, k + 1))
      && XPos(ws, row, gap, |row| - 1) + ws[row[|row| - 1]] + gap <= containerWidth
  {
    var gap := Gap(ws, row, containerWidth);
    var n := |row|;
    var free := containerWidth - RowWidth(ws, row);
    GapBounds(ws, row, containerWidth);
    assert 0 <= (n + 1) * gap <= free;
    NonNegativeFactor(n + 1, gap);
    XPosClosedForm(ws, row, gap, n);
    assert row[..n] == row;
    assert XPos(ws, row, gap, n) == (n + 1) * gap + RowWidth(ws, row);
  }

  lemma NonNegativeFactor(a: int, g: int)
    requires a > 0 && a * g >= 0
    ensures g >= 0
  {
  }
}
