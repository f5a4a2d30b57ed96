/**
 * The part of PIL's image model that `make_banner` (BannerCollageMaker.py)
 * relies on while building the grid: an RGB canvas created in one colour,
 * and `paste`, which copies a tile onto the canvas at an offset, clipped to
 * the canvas.
 */
module Imaging {

  type Byte = x: int | 0 <= x < 256

  datatype Pixel = Pixel(r: Byte, g: Byte, b: Byte)

  const BLACK: Pixel := Pixel(0, 0, 0)

  /** A picture given by its size and the colour of each of its pixels. */
  datatype Tile = Tile(width: nat, height: nat, at: (nat, nat) -> Pixel)

  /** Pasting `tile` at `(x0, y0)` covers the canvas pixel `(x, y)`. */
  predicate Covers(tile: Tile, x0: int, y0: int, x: int, y: int)
  {
    x0 <= x < x0 + tile.width && y0 <= y < y0 + tile.height
  }

  /** An RGB image whose pixels are changed in place; `pixels[x, y]` is column `x` of row `y`. */
  class Canvas {
    const width: nat
    const height: nat
    const pixels: array2<Pixel>

    predicate Valid()
    {
      pixels.Length0 == width && pixels.Length1 == height
    }

    /** `Image.new("RGB", (width, height), colour)`. */
    constructor (width: nat, height: nat, colour: Pixel)
      ensures Valid() && this.width == width && this.height == height && fresh(pixels)
      ensures forall x, y :: 0 <= x < width && 0 <= y < height ==> pixels[x, y] == colour
    {
      this.width := width;
      this.height := height;
      pixels := new Pixel[width, height]((x, y) => colour);
    }

    /**
     * `paste(tile, (x0, y0))`: every canvas pixel the tile covers takes the
     * tile's pixel; every other pixel keeps its colour.
     */
    method Paste(tile: Tile, x0: int, y0: int)
      requires Valid()
      modifies pixels
      ensures forall x, y :: 0 <= x < width && 0 <= y < height ==>
        pixels[x, y] == if Covers(tile, x0, y0, x, y) then tile.at(x - x0, y - y0) else old(pixels[x, y])
    {
      forall x, y | 0 <= x < width && 0 <= y < height && Covers(tile, x0, y0, x, y) {
        pixels[x, y] := tile.at(x - x0, y - y0);
      }
    }
  }
}
