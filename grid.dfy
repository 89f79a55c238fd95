/** The square grid the loader packs images into (src/assets.rs:87-91,
    116-133): its size, the origin of each slot's cell, and the geometry
    facts the packing relies on. The source sizes the grid with an `f32`
    square root; the model uses the integer square root. */
module Grid {

  /** Integer square root: the largest `r` with `r * r <= n`. */
  function Isqrt(n: nat): (r: nat)
    ensures r * r <= n < (r + 1) * (r + 1)
  {
    if n == 0 then 0
    else
      var s := Isqrt(n - 1);
      if (s + 1) * (s + 1) <= n then
        assert n == (s + 1) * (s + 1) by {
          assert n - 1 < (s + 1) * (s + 1);
        }
        assert (s + 1) * (s + 1) < (s + 2) * (s + 2);
        s + 1
      else s
  }

  /** `num_rows`: rows and columns of the grid holding `total` cells. */
  function NumRows(total: nat): (rows: nat)
    ensures rows >= 1
    ensures total < rows * rows
    ensures (rows - 1) * (rows - 1) <= total
  {
    Isqrt(total) + 1
  }

  /** The size of one cell of the grid (image size plus one pixel of padding)
      and the number of rows (= columns). */
  datatype Layout = Layout(rows: nat, celWidth: nat, celHeight: nat)
  {
    function BufferWidth(): nat { rows * celWidth }

    function BufferHeight(): nat { rows * celHeight }

    /** Number of cells, and so of slots, the buffer holds. */
    function Capacity(): nat { rows * rows }
  }

  /** `cel_width` (src/assets.rs:90). */
  function CelWidth(width: nat): nat { width + 1 }

  /** `cel_height` as written (src/assets.rs:91): computed from the width. */
  function CelHeight(width: nat, height: nat): (h: nat)
    ensures h == CelWidth(width)
  {
    width + 1
  }

  /** `cel_height` as evidently intended: the image height plus padding. */
  function IntendedCelHeight(width: nat, height: nat): (h: nat)
    ensures h > height
  {
    height + 1
  }

  /** The grid for `total` slots of images `width` x `height` (as written). */
  function LayoutFor(width: nat, height: nat, total: nat): (l: Layout)
    ensures total < l.Capacity()
  {
    Layout(NumRows(total), CelWidth(width), CelHeight(width, height))
  }

  /** Top-left corner of slot `k`: `(k % rows * cel_width, k / rows * cel_height)`. */
  function OriginX(l: Layout, k: nat): nat
    requires l.rows > 0
  {
    k % l.rows * l.celWidth
  }

  function OriginY(l: Layout, k: nat): nat
    requires l.rows > 0
  {
    k / l.rows * l.celHeight
  }

  lemma MulLeftMono(a: nat, b: nat, c: nat)
    requires a <= b
    ensures a * c <= b * c
  {
  }

  /** Quotient and remainder are determined by `x == q * c + m`, `m < c`. */
  lemma DivModUnique(x: nat, c: nat, q: nat, m: nat)
    requires c > 0 && m < c && x == q * c + m
    ensures x / c == q && x % c == m
  {
    var q', m' := x / c, x % c;
    assert x == q' * c + m';
    if q' < q {
      MulLeftMono(q' + 1, q, c);
      assert false;
    } else if q < q' {
      MulLeftMono(q + 1, q', c);
      assert false;
    }
  }

  /** A slot below the capacity lies in one of the `rows` rows. */
  lemma RowBelowRows(k: nat, r: nat)
    requires r > 0 && k < r * r
    ensures k / r < r
  {
    var q := k / r;
    assert k == q * r + k % r;
    if q >= r {
      MulLeftMono(r, q, r);
      assert false;
    }
  }

  /** The cell of every slot below the capacity lies inside the buffer. */
  lemma CellInBuffer(l: Layout, k: nat)
    requires l.rows > 0 && k < l.Capacity()
    ensures OriginX(l, k) + l.celWidth <= l.BufferWidth()
    ensures OriginY(l, k) + l.celHeight <= l.BufferHeight()
  {
    var col, row := k % l.rows, k / l.rows;
    RowBelowRows(k, l.rows);
    MulLeftMono(col + 1, l.rows, l.celWidth);
    assert (col + 1) * l.celWidth == col * l.celWidth + l.celWidth;
    MulLeftMono(row + 1, l.rows, l.celHeight);
    assert (row + 1) * l.celHeight == row * l.celHeight + l.celHeight;
  }

  /** The slot is recovered from its cell origin: the map from slots to
      cells is injective. */
  lemma SlotFromOrigin(l: Layout, k: nat)
    requires l.rows > 0 && l.celWidth > 0 && l.celHeight > 0
    ensures OriginX(l, k) / l.celWidth == k % l.rows
    ensures OriginY(l, k) / l.celHeight == k / l.rows
    ensures k == OriginY(l, k) / l.celHeight * l.rows + OriginX(l, k) / l.celWidth
  {
    DivModUnique(OriginX(l, k), l.celWidth, k % l.rows, 0);
    DivModUnique(OriginY(l, k), l.celHeight, k / l.rows, 0);
  }

  /** Two different slots get cells that do not overlap. */
  lemma CellsDisjoint(l: Layout, j: nat, k: nat)
    requires l.rows > 0 && l.celWidth > 0 && l.celHeight > 0
    requires j != k
    ensures || OriginX(l, j) + l.celWidth <= OriginX(l, k)
            || OriginX(l, k) + l.celWidth <= OriginX(l, j)
            || OriginY(l, j) + l.celHeight <= OriginY(l, k)
            || OriginY(l, k) + l.celHeight <= OriginY(l, j)
  {
    var r := l.rows;
    if j % r < k % r {
      MulLeftMono(j % r + 1, k % r, l.celWidth);
    } else if k % r < j % r {
      MulLeftMono(k % r + 1, j % r, l.celWidth);
    } else if j / r < k / r {
      MulLeftMono(j / r + 1, k / r, l.celHeight);
    } else if k / r < j / r {
      MulLeftMono(k / r + 1, j / r, l.celHeight);
    } else {
      assert false;
    }
  }

  /** `image.copy_from(other, x, y)` refuses an image that does not fit in
      the buffer at that position; this says whether an image `w` x `h`
      copied to slot `k` fits. */
  predicate CopyFits(l: Layout, k: nat, w: nat, h: nat)
    requires l.rows > 0
  {
    OriginX(l, k) + w <= l.BufferWidth() && OriginY(l, k) + h <= l.BufferHeight()
  }

  /** An image no larger than a cell fits in the buffer at every slot. */
  lemma CopyFitsWhenCellHoldsImage(l: Layout, k: nat, w: nat, h: nat)
    requires l.rows > 0 && k < l.Capacity()
    requires w <= l.celWidth && h <= l.celHeight
    ensures CopyFits(l, k, w, h)
  {
    CellInBuffer(l, k);
  }

  /** As written, a frame as wide as `width` always fits in its cell's
      columns, whatever its height. */
  lemma FrameWidthFits(width: nat, height: nat, total: nat, k: nat)
    requires k < LayoutFor(width, height, total).Capacity()
    ensures OriginX(LayoutFor(width, height, total), k) + width
            < OriginX(LayoutFor(width, height, total), k) + LayoutFor(width, height, total).celWidth
            <= LayoutFor(width, height, total).BufferWidth()
  {
    CellInBuffer(LayoutFor(width, height, total), k);
  }

  /** With the cell height taken from the width (src/assets.rs:91), a sprite
      2 pixels wide and 4 high with 3 frames gets a 2 x 2 grid of 3 x 3 cells:
      the third frame's copy at (0, 3) runs past the 6-pixel-high buffer,
      and the first frame's rows 3 and 4 lie in the third slot's cell. */
  lemma TallSpriteDoesNotFit()
    ensures LayoutFor(2, 4, 3) == Layout(2, 3, 3)
    ensures OriginY(LayoutFor(2, 4, 3), 2) == 3
    ensures !CopyFits(LayoutFor(2, 4, 3), 2, 2, 4)
    ensures OriginY(LayoutFor(2, 4, 3), 0) + 4 > OriginY(LayoutFor(2, 4, 3), 2)
  {
    assert Isqrt(3) == 1 by {
      assert Isqrt(0) == 0;
      assert Isqrt(1) == 1;
      assert Isqrt(2) == 1;
    }
  }

  /** With the intended cell height, every image of the sprite lies inside
      its own cell, which lies inside the buffer; so copies never fail and
      never reach a neighbouring cell. */
  lemma IntendedCellsHoldImages(width: nat, height: nat, total: nat, k: nat)
    requires k < NumRows(total) * NumRows(total)
    ensures var l := Layout(NumRows(total), CelWidth(width), IntendedCelHeight(width, height));
      && OriginX(l, k) + width < OriginX(l, k) + l.celWidth
      && OriginY(l, k) + height < OriginY(l, k) + l.celHeight
      && CopyFits(l, k, width, height)
  {
    var l := Layout(NumRows(total), CelWidth(width), IntendedCelHeight(width, height));
    CopyFitsWhenCellHoldsImage(l, k, width, height);
  }
}
