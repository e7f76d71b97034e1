/** Constants, integer division and the width fold shared by every part of
    the photo viewer's row-packing layout engine. An image is identified by
    its index in the window's ordered image list; `ws[i]` is the pixel width
    of image `i` (a GdkPixbuf width, never negative). */
module LayoutBasics {

  /** Default window size. */
  const DefaultHeight: int := 1390
  const DefaultWidth: int := 1250

  /** Ratio of window height to row height (7:1). */
  const ImgRatioToAppHeight: int := 7

  /** Height every image is scaled to when it is loaded. */
  const LoadHeight: int := 200

  /** Height of one row of images: 1390 / 7, that is 198. */
  const RowHeight: int := DefaultHeight / ImgRatioToAppHeight

  /** Top margin added to every row's y coordinate. */
  const RowSpacing: int := 10

  /** Division of `i32` values as the program performs it: the quotient is
      truncated toward zero (Dafny's own `/` is Euclidean and would round a
      negative quotient down instead). */
  function TruncDiv(a: int, b: int): int
    requires b > 0
  {
    if a >= 0 then a / b else -((-a) / b)
  }

  /** The truncated quotient, pinned down uniquely for each sign of the
      dividend: it never overshoots `a` away from zero and falls short of it
      by less than one divisor. */
  lemma TruncDivBounds(a: int, b: int)
    requires b > 0
    ensures var q := TruncDiv(a, b);
      && (0 <= a ==> 0 <= q * b <= a < q * b + b)
      && (a < 0 ==> q * b - b < a <= q * b <= 0)
  {
    if a >= 0 {
      EuclideanBounds(a, b);
    } else {
      EuclideanBounds(-a, b);
      NegateProduct((-a) / b, b);
    }
  }

  lemma EuclideanBounds(a: nat, b: int)
    requires b > 0
    ensures 0 <= (a / b) * b <= a < (a / b) * b + b
  {
    var q, r := a / b, a % b;
    assert a == b * q + r && 0 <= r < b;
    assert q * b == b * q;
    if q < 0 {
      assert b * q <= -b by { MultiplyMonotone(b, q); }
    }
  }

  lemma MultiplyMonotone(b: int, q: int)
    requires b > 0 && q < 0
    ensures b * q <= -b
  {
    assert b * q == -(b * -q);
    assert b * -q >= b * 1;
  }

  lemma NegateProduct(p: int, b: int)
    ensures -p * b == -(p * b)
  {
  }

  /** Every index in `row` names an image of `ws`. */
  predicate ValidRow(ws: seq<nat>, row: seq<nat>)
  {
    forall k :: 0 <= k < |row| ==> row[k] < |ws|
  }

  predicate ValidRows(ws: seq<nat>, rows: seq<seq<nat>>)
  {
    forall r :: 0 <= r < |rows| ==> ValidRow(ws, rows[r])
  }

  /** Sum of the widths of the images of `row`, accumulated from the left
      as the program's `fold(0, |sum, i| sum + i.width())` does. */
  function RowWidth(ws: seq<nat>, row: seq<nat>): nat
    requires ValidRow(ws, row)
  {
    if row == [] then 0 else RowWidth(ws, row[..|row| - 1]) + ws[row[|row| - 1]]
  }

  /** The indices `lo, lo + 1, ..., hi - 1` in increasing order. */
  function Range(lo: nat, hi: nat): (r: seq<nat>)
    requires lo <= hi
    ensures |r| == hi - lo
    ensures forall k :: 0 <= k < |r| ==> r[k] == lo + k
  {
    seq(hi - lo, k requires 0 <= k < hi - lo => lo + k)
  }

  /** The rows of a pass laid end to end. */
  function Flatten(rows: seq<seq<nat>>): seq<nat>
  {
    if rows == [] then [] else Flatten(rows[..|rows| - 1]) + rows[|rows| - 1]
  }

  lemma FlattenSnoc(rows: seq<seq<nat>>, row: seq<nat>)
    ensures Flatten(rows + [row]) == Flatten(rows) + row
  {
    assert (rows + [row])[..|rows|] == rows;
  }

  lemma {:induction false} RowWidthAppend(ws: seq<nat>, a: seq<nat>, b: seq<nat>)
    requires ValidRow(ws, a) && ValidRow(ws, b)
    ensures ValidRow(ws, a + b)
    ensures RowWidth(ws, a + b) == RowWidth(ws, a) + RowWidth(ws, b)
    decreases |b|
  {
    if b == [] {
      assert a + b == a;
    } else {
      var init := b[..|b| - 1];
      RowWidthAppend(ws, a, init);
      assert (a + b)[..|a + b| - 1] == a + init;
    }
  }

  lemma {:induction false} RangeSplit(lo: nat, mid: nat, hi: nat)
    requires lo <= mid <= hi
    ensures Range(lo, mid) + Range(mid, hi) == Range(lo, hi)
  {
    assert forall k :: 0 <= k < hi - lo ==> (Range(lo, mid) + Range(mid, hi))[k] == lo + k;
  }
}
