/** Facts about products of integers that the glyph and frame-buffer proofs lean on. */
module Arith {

  /** Multiplying by a non-negative factor keeps an order. */
  lemma {:induction false} MulLe(a: int, b: int, c: int)
    requires a <= b && c >= 0
    ensures a * c <= b * c
  {
    assert b * c - a * c == (b - a) * c;
  }

  /** Cell (x, y) of a w-by-h grid, counted row by row, lies inside the grid. */
  lemma {:induction false} CellBelow(x: int, y: int, w: int, h: int)
    requires 0 <= x < w && 0 <= y < h
    ensures 0 <= y * w + x < h * w
  {
    MulLe(y + 1, h, w);
    MulLe(0, y, w);
  }

  /** Products distribute over a sum. */
  lemma {:induction false} Distrib(a: int, b: int, c: int)
    ensures (a + b) * c == a * c + b * c
  {
  }

  /** One more band of `s` rows of width `w` adds `s * w` cells. */
  lemma {:induction false} BandsSucc(n: int, s: int, w: int)
    ensures (n * s) * w == ((n - 1) * s) * w + s * w
  {
    Distrib(n - 1, 1, s);
    Distrib((n - 1) * s, s, w);
  }

  /**
   * The number of cells in `h` rows of `w` cells, counted row by row. It is
   * `h * w` (CellsProduct), written as a sum so that proofs about buffers
   * indexed by it need no reasoning about products.
   */
  function Cells(w: int, h: int): int
    decreases h
  {
    if h <= 0 then 0 else Cells(w, h - 1) + w
  }

  lemma {:induction false} CellsProduct(w: int, h: nat)
    ensures Cells(w, h) == h * w
  {
    if h > 0 {
      CellsProduct(w, h - 1);
      Distrib(h - 1, 1, w);
    }
  }

  /** Cell `x` of row `y` comes after the rows above it and before the rows below. */
  lemma {:induction false} CellsBelow(x: int, y: int, w: int, h: int)
    requires 0 <= x < w && 0 <= y < h
    ensures 0 <= Cells(w, y) + x < Cells(w, h)
    decreases h
  {
    if y < h - 1 {
      CellsBelow(x, y, w, h - 1);
    } else {
      CellsNonNegative(w, y);
    }
  }

  lemma {:induction false} CellsNonNegative(w: int, h: int)
    requires w >= 0
    ensures Cells(w, h) >= 0
    decreases h
  {
    if h > 0 {
      CellsNonNegative(w, h - 1);
    }
  }

  /** Whole multiples of `d` up to `n`: n / d of them fit, one more does not. */
  lemma {:induction false} DivFits(n: nat, d: int)
    requires d >= 1
    ensures (n / d) * d <= n < (n / d + 1) * d
  {
  }

  /** The rows above row `y`, and row `y` itself, fit in `h` rows. */
  lemma {:induction false} CellsRow(w: int, y: int, h: int)
    requires w >= 0 && 0 <= y < h
    ensures 0 <= Cells(w, y) && Cells(w, y) + w <= Cells(w, h)
    decreases h
  {
    CellsNonNegative(w, y);
    if y < h - 1 {
      CellsRow(w, y, h - 1);
    }
  }
}
