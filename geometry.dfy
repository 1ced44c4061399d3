/** Grid geometry of the drawing surface (class SnakeBoard of index.js): the size of one
    cell's box and the canvas coordinate of a cell's top-left corner. The canvas
    context itself and the drawing calls are not modelled. */
module Geometry {

  /** The configuration a SnakeBoard is built with, plus the box size it derives once. */
  datatype SnakeBoard = SnakeBoard(rows: int, cols: int, gap: int,
                                   width: int, height: int, boxSize: int)

  /** `Math.floor(width / cols - gap * 2)`: the widest box such that `cols` boxes, each
      with a gap on both sides, still fit in the canvas width. */
  function BoxSize(width: int, cols: int, gap: int): (r: int)
    requires cols > 0
    ensures cols * (r + 2 * gap) <= width < cols * (r + 2 * gap + 1)
  {
    var q := width as real / cols as real;
    var f := (q - (gap * 2) as real).Floor;
    assert (f + 2 * gap) as real <= q < (f + 2 * gap + 1) as real;
    ScaleBounds(f + 2 * gap, width, cols);
    f
  }

  /** Clears the division in `k <= w / c < k + 1` (real division) for a positive `c`. */
  lemma ScaleBounds(k: int, w: int, c: int)
    requires c > 0
    requires k as real <= w as real / c as real < (k + 1) as real
    ensures c * k <= w < c * (k + 1)
  {
    var q := w as real / c as real;
    assert q * c as real == w as real;
    assert (c * k) as real == c as real * k as real;
    assert (c * (k + 1)) as real == c as real * (k + 1) as real;
  }

  /** The constructor of SnakeBoard: it records the configuration and the canvas size and
      computes the box size once: the largest one at which `cols` boxes with their gaps
      fit in the canvas width. `height` is recorded and used nowhere else. */
  function NewBoard(width: int, height: int, rows: int, cols: int, gap: int): (b: SnakeBoard)
    requires cols > 0
    ensures b.rows == rows && b.cols == cols && b.gap == gap
    ensures b.width == width && b.height == height
    ensures b.cols * (b.boxSize + 2 * b.gap) <= b.width < b.cols * (b.boxSize + 2 * b.gap + 1)
  {
    SnakeBoard(rows, cols, gap, width, height, BoxSize(width, cols, gap))
  }

  /** `posToCor`: the coordinate of the top-left corner of the box in column (or row) `pos`. */
  function PosToCor(b: SnakeBoard, pos: int): int
  {
    b.gap + pos * (b.gap * 2 + b.boxSize)
  }

  /** Neighbouring cells' origins are one box plus two gaps apart. */
  lemma CellStride(b: SnakeBoard, pos: int)
    ensures PosToCor(b, pos + 1) == PosToCor(b, pos) + b.boxSize + 2 * b.gap
  {
  }

  /** Boxes of two different columns never overlap: the earlier one ends, with both of
      their gaps, no later than the later one starts. */
  lemma {:induction false} BoxesDisjoint(b: SnakeBoard, p: int, q: int)
    requires b.gap >= 0 && b.boxSize >= 1
    requires p < q
    ensures PosToCor(b, p) + b.boxSize + 2 * b.gap <= PosToCor(b, q)
    decreases q - p
  {
    CellStride(b, p);
    if p + 1 < q {
      BoxesDisjoint(b, p + 1, q);
    }
  }

  /** Every box of the grid lies in the rectangle that `clear` wipes,
      `cols * (boxSize + 2 * gap)` wide. */
  lemma {:induction false} BoxInsideClearedArea(b: SnakeBoard, pos: int)
    requires b.gap >= 0 && b.boxSize >= 1
    requires 0 <= pos < b.cols
    ensures 0 <= PosToCor(b, pos)
    ensures PosToCor(b, pos) + b.boxSize <= b.cols * (b.boxSize + 2 * b.gap)
  {
    var s := b.boxSize + 2 * b.gap;
    assert PosToCor(b, pos) + b.boxSize + b.gap == (pos + 1) * s;
    ScaleMonotone(pos + 1, b.cols, s);
  }

  /** Multiplying by a non-negative number keeps `<=`. */
  lemma {:induction false} ScaleMonotone(m: int, n: int, s: int)
    requires m <= n && s >= 0
    ensures m * s <= n * s
    decreases n - m
  {
    if m < n {
      ScaleMonotone(m + 1, n, s);
      assert (m + 1) * s == m * s + s;
    }
  }
}
