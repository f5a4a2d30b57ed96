/**
 * The grid of `make_banner` (BannerCollageMaker.py): a 15 x 6 grid of tiles on
 * a 2560 x 1440 canvas, separated and surrounded by gutters of `grid_w` pixels,
 * with a centred 7 x 2 block of favourites, walked in row-major order.
 */
module Grid {
  import Arith

  const W: nat := 2560
  const H: nat := 1440
  const COLS: nat := 15
  const ROWS: nat := 6
  const CENTRE_COLS: nat := 7
  const CENTRE_ROWS: nat := 2
  const CELLS: nat := COLS * ROWS
  const CENTRE_SLOTS: nat := CENTRE_COLS * CENTRE_ROWS
  const OUTER_SLOTS: nat := CELLS - CENTRE_SLOTS

  const START_COL: nat := (COLS - CENTRE_COLS) / 2
  const END_COL: nat := START_COL + CENTRE_COLS
  const START_ROW: nat := (ROWS - CENTRE_ROWS) / 2
  const END_ROW: nat := START_ROW + CENTRE_ROWS

  /** `grid_w`: thin gutters for the cinematic style, wide ones otherwise. */
  function Gutter(style: string): nat
  {
    if style == "cinematic" then 6 else 16
  }

  /** `tile_w` and `tile_h`: what is left after the gutters, shared equally and rounded down. */
  function TileWidth(g: nat): int
  {
    (W as int - (COLS + 1) * g) / COLS
  }

  function TileHeight(g: nat): int
  {
    (H as int - (ROWS + 1) * g) / ROWS
  }

  /** A gutter that leaves every tile at least one pixel wide and high. */
  predicate Fits(g: nat)
  {
    (COLS + 1) * g + COLS <= W && (ROWS + 1) * g + ROWS <= H
  }

  /** The two styles give gutters of 6 and 16 pixels, tiles of 164 x 233 and 153 x 221. */
  lemma GutterSizes(style: string)
    ensures var g := Gutter(style);
      && (g == 6 <==> style == "cinematic") && (g == 16 <==> style != "cinematic")
      && Fits(g)
      && TileWidth(g) == (if g == 6 then 164 else 153)
      && TileHeight(g) == (if g == 6 then 233 else 221)
  {
  }

  datatype Cell = Cell(row: nat, col: nat)

  predicate ValidCell(cell: Cell)
  {
    cell.row < ROWS && cell.col < COLS
  }

  /** `x = grid_w + c * (tile_w + grid_w)` and `y = grid_w + r * (tile_h + grid_w)`. */
  function TileX(g: nat, col: nat): int
  {
    g + col * (TileWidth(g) + g)
  }

  function TileY(g: nat, row: nat): int
  {
    g + row * (TileHeight(g) + g)
  }

  /** The pixel `(x, y)` lies in the tile of `cell`. */
  predicate InTile(g: nat, cell: Cell, x: int, y: int)
  {
    TileX(g, cell.col) <= x < TileX(g, cell.col) + TileWidth(g)
    && TileY(g, cell.row) <= y < TileY(g, cell.row) + TileHeight(g)
  }

  /** `count` tiles of size `t` with `count + 1` gutters `g` fit in `total` when `t` is the rounded-down share. */
  lemma Share(total: nat, count: nat, g: nat)
    requires count > 0 && (count + 1) * g + count <= total
    ensures var t := (total - (count + 1) * g) / count;
      t >= 1 && count * t + (count + 1) * g <= total
  {
    var rest := total - (count + 1) * g;
    Arith.DivBracket(rest, count);
    assert count * 1 <= rest;
    Arith.DivModUnique(rest, count, rest / count, rest % count);
  }

  /** Tile `i` of `count` along an axis of length `total`, with the rounded-down extent, fits with a gutter on each side. */
  lemma AxisFits(total: nat, count: nat, g: nat, i: nat)
    requires count > 0 && (count + 1) * g + count <= total && i < count
    ensures var t := (total - (count + 1) * g) / count;
      t >= 1 && g + i * (t + g) + t + g <= total
  {
    var t := (total - (count + 1) * g) / count;
    Share(total, count, g);
    MulMono(i, count - 1, t + g);
    assert (count - 1) * (t + g) == count * t + count * g - t - g;
    assert (count + 1) * g == count * g + g;
  }

  /**
   * Every tile lies inside the canvas with at least a gutter of margin on each
   * side: the left and top margins are exactly `g`, the right and bottom ones at least `g`.
   */
  lemma TileInsideCanvas(g: nat, cell: Cell)
    requires Fits(g) && ValidCell(cell)
    ensures TileWidth(g) > 0 && TileHeight(g) > 0
    ensures g <= TileX(g, cell.col) && TileX(g, cell.col) + TileWidth(g) + g <= W
    ensures g <= TileY(g, cell.row) && TileY(g, cell.row) + TileHeight(g) + g <= H
  {
    AxisFits(W, COLS, g, cell.col);
    AxisFits(H, ROWS, g, cell.row);
  }

  lemma MulMono(a: nat, b: nat, d: nat)
    requires a <= b
    ensures a * d <= b * d
  {
    assert b * d == a * d + (b - a) * d;
  }

  /** Horizontally and vertically neighbouring tiles are exactly one gutter apart. */
  lemma NeighboursOneGutterApart(g: nat, row: nat, col: nat)
    ensures TileX(g, col + 1) - (TileX(g, col) + TileWidth(g)) == g
    ensures TileY(g, row + 1) - (TileY(g, row) + TileHeight(g)) == g
  {
    assert (col + 1) * (TileWidth(g) + g) == col * (TileWidth(g) + g) + TileWidth(g) + g;
    assert (row + 1) * (TileHeight(g) + g) == row * (TileHeight(g) + g) + TileHeight(g) + g;
  }

  /** Tiles in different columns are horizontally apart, the left one ending before the right one starts. */
  lemma ColumnsApart(g: nat, c1: nat, c2: nat)
    requires Fits(g) && c1 < c2
    ensures TileX(g, c1) + TileWidth(g) + g <= TileX(g, c2)
  {
    var d := TileWidth(g) + g;
    Share(W, COLS, g);
    MulMono(c1 + 1, c2, d);
    assert (c1 + 1) * d == c1 * d + d;
  }

  lemma RowsApart(g: nat, r1: nat, r2: nat)
    requires Fits(g) && r1 < r2
    ensures TileY(g, r1) + TileHeight(g) + g <= TileY(g, r2)
  {
    var d := TileHeight(g) + g;
    Share(H, ROWS, g);
    MulMono(r1 + 1, r2, d);
    assert (r1 + 1) * d == r1 * d + d;
  }

  /** No pixel lies in the tiles of two different cells. */
  lemma TilesDisjoint(g: nat, a: Cell, b: Cell, x: int, y: int)
    requires Fits(g) && a != b
    ensures !(InTile(g, a, x, y) && InTile(g, b, x, y))
  {
    if a.col < b.col {
      ColumnsApart(g, a.col, b.col);
    } else if b.col < a.col {
      ColumnsApart(g, b.col, a.col);
    } else if a.row < b.row {
      RowsApart(g, a.row, b.row);
    } else {
      RowsApart(g, b.row, a.row);
    }
  }

  /** `start_row <= r < end_row and start_col <= c < end_col`. */
  predicate IsCentre(cell: Cell)
  {
    START_ROW <= cell.row < END_ROW && START_COL <= cell.col < END_COL
  }

  /** The `k`-th cell of the row-major walk. */
  function CellOf(k: nat): (cell: Cell)
    ensures k < CELLS ==> ValidCell(cell)
  {
    Cell(k / COLS, k % COLS)
  }

  /** The position of a cell in the row-major walk. */
  function Index(cell: Cell): nat
  {
    cell.row * COLS + cell.col
  }

  /** The walk visits every cell once: `CellOf` and `Index` are inverse on the grid. */
  lemma WalkVisitsEachCell(cell: Cell, k: nat)
    ensures ValidCell(cell) ==> CellOf(Index(cell)) == cell && Index(cell) < CELLS
    ensures k < CELLS ==> Index(CellOf(k)) == k
  {
    if ValidCell(cell) {
      Arith.DivModUnique(Index(cell), COLS, cell.row, cell.col);
      assert Index(cell) < CELLS by {
        assert cell.row * COLS <= (ROWS - 1) * COLS by { MulMono(cell.row, ROWS - 1, COLS); }
      }
    }
  }

  /** The number of centre cells among the first `k` cells of the walk: `fav_idx` before cell `k`. */
  function CentreBefore(k: nat): (n: nat)
    ensures n <= k
  {
    if k == 0 then 0 else CentreBefore(k - 1) + (if IsCentre(CellOf(k - 1)) then 1 else 0)
  }

  /** The same count, written out row by row. */
  function CentreBeforeClosed(k: nat): nat
  {
    CentreBeforeCell(CellOf(k))
  }

  /** The centre cells before `cell`: whole centre rows above it, then the centre cells to its left. */
  function CentreBeforeCell(cell: Cell): nat
  {
    if cell.row < START_ROW then 0
    else if cell.row >= END_ROW then CENTRE_SLOTS
    else
      var left := if cell.col < START_COL then 0 else if cell.col >= END_COL then CENTRE_COLS else cell.col - START_COL;
      (cell.row - START_ROW) * CENTRE_COLS + left
  }

  lemma {:induction false} CentreBeforeIsClosed(k: nat)
    ensures CentreBefore(k) == CentreBeforeClosed(k)
  {
    if k > 0 {
      var j := k - 1;
      var step := if IsCentre(CellOf(j)) then 1 else 0;
      assert CentreBefore(k) == CentreBefore(j) + step;
      CentreBeforeIsClosed(j);
      ClosedStep(j);
    }
  }

  /** The closed form grows by one exactly at a centre cell. */
  lemma ClosedStep(j: nat)
    ensures CentreBeforeClosed(j + 1) == CentreBeforeClosed(j) + (if IsCentre(CellOf(j)) then 1 else 0)
  {
    if j % COLS < COLS - 1 {
      Arith.DivModUnique(j + 1, COLS, j / COLS, j % COLS + 1);
    } else {
      Arith.DivModUnique(j + 1, COLS, j / COLS + 1, 0);
    }
  }

  /**
   * The centre block is columns 4 to 10 of rows 2 and 3; the walk meets 14
   * centre cells and 76 outer cells.
   */
  lemma CentreBlock()
    ensures START_COL == 4 && END_COL == 11 && START_ROW == 2 && END_ROW == 4
    ensures CentreBefore(CELLS) == CENTRE_SLOTS == 14
    ensures CELLS - CentreBefore(CELLS) == OUTER_SLOTS == 76
  {
    CentreBeforeIsClosed(CELLS);
  }

  /** `fav_idx` and `other_idx` only grow along the walk. */
  lemma {:induction false} CountsGrow(j: nat, k: nat)
    requires j <= k
    ensures CentreBefore(j) <= CentreBefore(k)
    ensures j - CentreBefore(j) <= k - CentreBefore(k)
    decreases k
  {
    if j < k {
      CountsGrow(j, k - 1);
    }
  }

  /**
   * The walk never reads past either pool: at a centre cell `fav_idx < 14`, at
   * an outer cell `other_idx < 76`.
   */
  lemma IndicesInRange(k: nat)
    requires k < CELLS
    ensures IsCentre(CellOf(k)) ==> CentreBefore(k) < CENTRE_SLOTS
    ensures !IsCentre(CellOf(k)) ==> k - CentreBefore(k) < OUTER_SLOTS
  {
    CountsGrow(k + 1, CELLS);
    CentreBlock();
  }

  /** Different centre cells take different favourites, and different outer cells different background photos. */
  lemma IndicesDistinct(j: nat, k: nat)
    requires j < k
    ensures IsCentre(CellOf(j)) && IsCentre(CellOf(k)) ==> CentreBefore(j) < CentreBefore(k)
    ensures !IsCentre(CellOf(j)) && !IsCentre(CellOf(k)) ==> j - CentreBefore(j) < k - CentreBefore(k)
  {
    CountsGrow(j + 1, k);
  }

  /** Every favourite slot is used: slot `i` is taken by the cell in row `2 + i / 7`, column `4 + i % 7`. */
  lemma EveryFavouriteSlotUsed(i: nat)
    requires i < CENTRE_SLOTS
    ensures var cell := Cell(START_ROW + i / CENTRE_COLS, START_COL + i % CENTRE_COLS);
      ValidCell(cell) && IsCentre(cell) && CentreBefore(Index(cell)) == i
  {
    var cell := Cell(START_ROW + i / CENTRE_COLS, START_COL + i % CENTRE_COLS);
    WalkVisitsEachCell(cell, 0);
    CentreBeforeIsClosed(Index(cell));
  }
}
