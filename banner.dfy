/**
 * The grid part of `make_banner` (BannerCollageMaker.py, lines 100-150): gather
 * the pools, expand and shuffle them, then walk the 15 x 6 cells in row-major
 * order, taking the next favourite for a centre cell and the next background
 * photo for any other, and paste each photo that can be opened and cropped
 * onto a canvas that starts black.  What gets painted is specified by
 * `Painted`, the canvas after the first `k` cells of the walk.
 */
module Banner {
  import opened Base
  import Crop
  import Grid
  import Pools
  import Imaging

  /**
   * What the imaging library yields for a photo: its size when `Image.open`
   * and `convert("RGB")` succeed (`None` when they raise), and the pixels
   * that resampling a crop box to a size produces.
   */
  datatype Photos = Photos(
    open: string -> Option<Size>,
    resample: (string, Box, Size) -> ((nat, nat) -> Imaging.Pixel))

  /**
   * The body of the `try` for one photo: open it and `fit_crop` it to the tile
   * size; `None` when opening fails or the crop divides by a zero height.
   */
  function TileFor(photos: Photos, path: string, g: nat): (t: Option<Imaging.Tile>)
    requires Grid.Fits(g)
    ensures t.Some? ==> t.value.width == Grid.TileWidth(g) && t.value.height == Grid.TileHeight(g)
    ensures t.Some? <==> photos.open(path).Some? && photos.open(path).value.height > 0
  {
    Grid.TileInsideCanvas(g, Grid.Cell(0, 0));
    var tw, th := Grid.TileWidth(g) as nat, Grid.TileHeight(g) as nat;
    match photos.open(path)
    case None => None
    case Some(size) =>
      match Crop.FitCrop(size, tw, th)
      case None => None
      case Some(fit) => Some(Imaging.Tile(tw, th, photos.resample(path, fit.box, fit.size)))
  }

  /** The photo the walk takes at cell `k`: `favs_to_place[fav_idx]` or `others_to_place[other_idx]`. */
  function PathAt(favs: seq<string>, others: seq<string>, k: nat): string
    requires |favs| == Grid.CENTRE_SLOTS && |others| == Grid.OUTER_SLOTS && k < Grid.CELLS
  {
    Grid.IndicesInRange(k);
    if Grid.IsCentre(Grid.CellOf(k)) then favs[Grid.CentreBefore(k)]
    else others[k - Grid.CentreBefore(k)]
  }

  /** The colour of canvas pixel `(x, y)` after the first `k` cells of the walk. */
  function Painted(g: nat, photos: Photos, favs: seq<string>, others: seq<string>, k: nat, x: int, y: int): Imaging.Pixel
    requires Grid.Fits(g) && |favs| == Grid.CENTRE_SLOTS && |others| == Grid.OUTER_SLOTS && k <= Grid.CELLS
  {
    if k == 0 then Imaging.BLACK
    else
      var before := Painted(g, photos, favs, others, k - 1, x, y);
      var cell := Grid.CellOf(k - 1);
      var x0, y0 := Grid.TileX(g, cell.col), Grid.TileY(g, cell.row);
      match TileFor(photos, PathAt(favs, others, k - 1), g)
      case None => before
      case Some(tile) => if Imaging.Covers(tile, x0, y0, x, y) then tile.at(x - x0, y - y0) else before
  }

  /** The pixel a finished walk leaves at `(x, y)` of the tile of cell `k`: the tile's, or black when the photo failed. */
  function CellPixel(g: nat, photos: Photos, favs: seq<string>, others: seq<string>, k: nat, x: int, y: int): Imaging.Pixel
    requires Grid.Fits(g) && |favs| == Grid.CENTRE_SLOTS && |others| == Grid.OUTER_SLOTS && k < Grid.CELLS
    requires Grid.InTile(g, Grid.CellOf(k), x, y)
  {
    var cell := Grid.CellOf(k);
    var x0, y0 := Grid.TileX(g, cell.col), Grid.TileY(g, cell.row);
    match TileFor(photos, PathAt(favs, others, k), g)
    case None => Imaging.BLACK
    case Some(tile) => tile.at(x - x0, y - y0)
  }

  /** The canvas is the one `Painted` gives after the first `k` cells. */
  ghost predicate PaintedUpTo(canvas: Imaging.Canvas, g: nat, photos: Photos, favs: seq<string>, others: seq<string>, k: nat)
    requires Grid.Fits(g) && |favs| == Grid.CENTRE_SLOTS && |others| == Grid.OUTER_SLOTS && k <= Grid.CELLS
    reads canvas.pixels
  {
    canvas.Valid() &&
    forall x, y :: 0 <= x < canvas.width && 0 <= y < canvas.height ==>
      canvas.pixels[x, y] == Painted(g, photos, favs, others, k, x, y)
  }

  /**
   * `make_banner` up to the vignette: either the error raised before drawing,
   * or the canvas with every cell pasted, together with the shuffled pools.
   */
  method MakeBannerGrid(style: string, favsIsDir: bool, listing: seq<string>, allImgs: seq<string>,
                        drawFavs: nat -> nat, drawOthers: nat -> nat, photos: Photos)
    returns (r: Result<Imaging.Canvas, Pools.BannerError>, favsPlaced: seq<string>, othersPlaced: seq<string>)
    ensures var gathered := Pools.Gather(favsIsDir, listing, allImgs);
      && (r.Err? <==> gathered.Err?)
      && (r.Err? ==> r.error == gathered.error)
      && (r.Ok? ==>
        && favsPlaced == Pools.Shuffled(Pools.Expand(gathered.value.favs, Grid.CENTRE_SLOTS), drawFavs)
        && othersPlaced == Pools.Shuffled(Pools.Expand(gathered.value.others, Grid.OUTER_SLOTS), drawOthers)
        && fresh(r.value) && fresh(r.value.pixels)
        && r.value.width == Grid.W && r.value.height == Grid.H
        && |favsPlaced| == Grid.CENTRE_SLOTS && |othersPlaced| == Grid.OUTER_SLOTS
        && PaintedUpTo(r.value, Grid.Gutter(style), photos, favsPlaced, othersPlaced, Grid.CELLS))
  {
    var gathered := Pools.Gather(favsIsDir, listing, allImgs);
    if gathered.Err? {
      return Err(gathered.error), [], [];
    }
    var canvas := new Imaging.Canvas(Grid.W, Grid.H, Imaging.BLACK);
    var g := Grid.Gutter(style);
    Grid.GutterSizes(style);

    var favsPool := Pools.Expand(gathered.value.favs, Grid.CENTRE_SLOTS);
    var othersPool := Pools.Expand(gathered.value.others, Grid.OUTER_SLOTS);
    var favArr := new string[Grid.CENTRE_SLOTS](i requires 0 <= i < Grid.CENTRE_SLOTS => favsPool[i]);
    var otherArr := new string[Grid.OUTER_SLOTS](i requires 0 <= i < Grid.OUTER_SLOTS => othersPool[i]);
    assert favArr[..] == favsPool;
    assert otherArr[..] == othersPool;
    Pools.Shuffle(favArr, drawFavs);
    Pools.Shuffle(otherArr, drawOthers);
    favsPlaced, othersPlaced := favArr[..], otherArr[..];
    Pools.ShufflePermutes(favsPool, drawFavs);
    Pools.ShufflePermutes(othersPool, drawOthers);

    WalkGrid(canvas, g, photos, favArr, otherArr);
    r := Ok(canvas);
  }

  /** The nested row and column loops of lines 132-150. */
  method WalkGrid(canvas: Imaging.Canvas, g: nat, photos: Photos, favArr: array<string>, otherArr: array<string>)
    requires Grid.Fits(g) && favArr.Length == Grid.CENTRE_SLOTS && otherArr.Length == Grid.OUTER_SLOTS
    requires PaintedUpTo(canvas, g, photos, favArr[..], otherArr[..], 0)
    modifies canvas.pixels
    ensures PaintedUpTo(canvas, g, photos, favArr[..], otherArr[..], Grid.CELLS)
  {
    var favIdx, otherIdx := 0, 0;
    var row := 0;
    while row < Grid.ROWS
      invariant 0 <= row <= Grid.ROWS
      invariant favIdx == Grid.CentreBefore(row * Grid.COLS) && otherIdx == row * Grid.COLS - favIdx
      invariant PaintedUpTo(canvas, g, photos, favArr[..], otherArr[..], row * Grid.COLS)
    {
      favIdx, otherIdx := WalkRow(canvas, g, photos, favArr, otherArr, row, favIdx, otherIdx);
      row := row + 1;
    }
  }

  /** One row of the walk: the inner loop over the columns, advancing `fav_idx` and `other_idx`. */
  method WalkRow(canvas: Imaging.Canvas, g: nat, photos: Photos, favArr: array<string>, otherArr: array<string>,
                 row: nat, favIdx0: nat, otherIdx0: nat)
    returns (favIdx: nat, otherIdx: nat)
    requires Grid.Fits(g) && favArr.Length == Grid.CENTRE_SLOTS && otherArr.Length == Grid.OUTER_SLOTS
    requires row < Grid.ROWS
    requires favIdx0 == Grid.CentreBefore(row * Grid.COLS) && otherIdx0 == row * Grid.COLS - favIdx0
    requires PaintedUpTo(canvas, g, photos, favArr[..], otherArr[..], row * Grid.COLS)
    modifies canvas.pixels
    ensures favIdx == Grid.CentreBefore((row + 1) * Grid.COLS) && otherIdx == (row + 1) * Grid.COLS - favIdx
    ensures PaintedUpTo(canvas, g, photos, favArr[..], otherArr[..], (row + 1) * Grid.COLS)
  {
    favIdx, otherIdx := favIdx0, otherIdx0;
    var col := 0;
    while col < Grid.COLS
      invariant 0 <= col <= Grid.COLS
      invariant favIdx == Grid.CentreBefore(row * Grid.COLS + col)
      invariant otherIdx == row * Grid.COLS + col - favIdx
      invariant PaintedUpTo(canvas, g, photos, favArr[..], otherArr[..], row * Grid.COLS + col)
    {
      var path;
      path, favIdx, otherIdx := NextPhoto(favArr, otherArr, row, col, favIdx, otherIdx);
      PasteCell(canvas, g, photos, path, row, col, favArr[..], otherArr[..]);
      col := col + 1;
    }
  }

  /** Lines 135-140: the photo for cell `(row, col)`, from the favourites in the centre block and the background elsewhere. */
  method NextPhoto(favArr: array<string>, otherArr: array<string>, row: nat, col: nat, favIdx0: nat, otherIdx0: nat)
    returns (path: string, favIdx: nat, otherIdx: nat)
    requires favArr.Length == Grid.CENTRE_SLOTS && otherArr.Length == Grid.OUTER_SLOTS
    requires Grid.ValidCell(Grid.Cell(row, col))
    requires favIdx0 == Grid.CentreBefore(row * Grid.COLS + col)
    requires otherIdx0 == row * Grid.COLS + col - favIdx0
    ensures Grid.CellOf(row * Grid.COLS + col) == Grid.Cell(row, col)
    ensures path == PathAt(favArr[..], otherArr[..], row * Grid.COLS + col)
    ensures favIdx == Grid.CentreBefore(row * Grid.COLS + col + 1)
    ensures otherIdx == row * Grid.COLS + col + 1 - favIdx
  {
    ghost var k := row * Grid.COLS + col;
    Grid.WalkVisitsEachCell(Grid.Cell(row, col), k);
    Grid.IndicesInRange(k);
    if Grid.START_ROW <= row < Grid.END_ROW && Grid.START_COL <= col < Grid.END_COL {
      path := favArr[favIdx0];
      favIdx, otherIdx := favIdx0 + 1, otherIdx0;
    } else {
      path := otherArr[otherIdx0];
      favIdx, otherIdx := favIdx0, otherIdx0 + 1;
    }
  }

  /** One iteration of the walk: paste the photo of cell `(row, col)` when it can be processed. */
  method PasteCell(canvas: Imaging.Canvas, g: nat, photos: Photos, path: string, row: nat, col: nat,
                   ghost favs: seq<string>, ghost others: seq<string>)
    requires Grid.Fits(g) && |favs| == Grid.CENTRE_SLOTS && |others| == Grid.OUTER_SLOTS
    requires Grid.ValidCell(Grid.Cell(row, col))
    requires Grid.CellOf(row * Grid.COLS + col) == Grid.Cell(row, col)
    requires path == PathAt(favs, others, row * Grid.COLS + col)
    requires PaintedUpTo(canvas, g, photos, favs, others, row * Grid.COLS + col)
    modifies canvas.pixels
    ensures PaintedUpTo(canvas, g, photos, favs, others, row * Grid.COLS + col + 1)
  {
    var tile := TileFor(photos, path, g);
    if tile.Some? {
      canvas.Paste(tile.value, Grid.TileX(g, col), Grid.TileY(g, row));
    }
  }

  /** Cells after `a` whose tiles miss `(x, y)` leave it as it was. */
  lemma {:induction false} Unchanged(g: nat, photos: Photos, favs: seq<string>, others: seq<string>, a: nat, k: nat, x: int, y: int)
    requires Grid.Fits(g) && |favs| == Grid.CENTRE_SLOTS && |others| == Grid.OUTER_SLOTS && a <= k <= Grid.CELLS
    requires forall j :: a <= j < k ==> !Grid.InTile(g, Grid.CellOf(j), x, y)
    ensures Painted(g, photos, favs, others, k, x, y) == Painted(g, photos, favs, others, a, x, y)
    decreases k
  {
    if k > a {
      Unchanged(g, photos, favs, others, a, k - 1, x, y);
    }
  }

  /**
   * Each pixel of a tile shows that tile's photo when it could be processed,
   * and keeps the canvas's initial black when it could not.
   */
  lemma TileShowsItsPhoto(g: nat, photos: Photos, favs: seq<string>, others: seq<string>, k: nat, x: int, y: int)
    requires Grid.Fits(g) && |favs| == Grid.CENTRE_SLOTS && |others| == Grid.OUTER_SLOTS && k < Grid.CELLS
    requires Grid.InTile(g, Grid.CellOf(k), x, y)
    ensures Painted(g, photos, favs, others, Grid.CELLS, x, y) == CellPixel(g, photos, favs, others, k, x, y)
  {
    forall j | 0 <= j < Grid.CELLS && j != k
      ensures !Grid.InTile(g, Grid.CellOf(j), x, y)
    {
      Grid.WalkVisitsEachCell(Grid.Cell(0, 0), j);
      Grid.WalkVisitsEachCell(Grid.Cell(0, 0), k);
      Grid.TilesDisjoint(g, Grid.CellOf(j), Grid.CellOf(k), x, y);
    }
    Unchanged(g, photos, favs, others, 0, k, x, y);
    Unchanged(g, photos, favs, others, k + 1, Grid.CELLS, x, y);
  }

  /** The gutters, and any pixel outside every tile, stay black. */
  lemma GuttersStayBlack(g: nat, photos: Photos, favs: seq<string>, others: seq<string>, x: int, y: int)
    requires Grid.Fits(g) && |favs| == Grid.CENTRE_SLOTS && |others| == Grid.OUTER_SLOTS
    requires forall cell :: Grid.ValidCell(cell) ==> !Grid.InTile(g, cell, x, y)
    ensures Painted(g, photos, favs, others, Grid.CELLS, x, y) == Imaging.BLACK
  {
    Unchanged(g, photos, favs, others, 0, Grid.CELLS, x, y);
  }

  /** A centre cell shows a favourite and any other cell a background photo, whatever the shuffles drew. */
  lemma CellsDrawFromTheirPool(favs: seq<string>, others: seq<string>, drawFavs: nat -> nat, drawOthers: nat -> nat, k: nat)
    requires |favs| > 0 && |others| > 0 && k < Grid.CELLS
    ensures var fp := Pools.Shuffled(Pools.Expand(favs, Grid.CENTRE_SLOTS), drawFavs);
      var op := Pools.Shuffled(Pools.Expand(others, Grid.OUTER_SLOTS), drawOthers);
      |fp| == Grid.CENTRE_SLOTS && |op| == Grid.OUTER_SLOTS
      && (Grid.IsCentre(Grid.CellOf(k)) ==> PathAt(fp, op, k) in favs)
      && (!Grid.IsCentre(Grid.CellOf(k)) ==> PathAt(fp, op, k) in others)
  {
    var ef := Pools.Expand(favs, Grid.CENTRE_SLOTS);
    var eo := Pools.Expand(others, Grid.OUTER_SLOTS);
    Pools.ShufflePermutes(ef, drawFavs);
    Pools.ShufflePermutes(eo, drawOthers);
    var fp := Pools.Shuffled(ef, drawFavs);
    var op := Pools.Shuffled(eo, drawOthers);
    Grid.IndicesInRange(k);
    var p := PathAt(fp, op, k);
    if Grid.IsCentre(Grid.CellOf(k)) {
      assert p in multiset(fp);
      var i :| 0 <= i < |ef| && ef[i] == p;
      assert ef[i] == favs[i % |favs|];
    } else {
      assert p in multiset(op);
      var i :| 0 <= i < |eo| && eo[i] == p;
      assert eo[i] == others[i % |others|];
    }
  }

  /** With at most 14 favourites, each of them appears in the centre block, whatever the shuffle drew. */
  lemma EveryFavouriteShown(favs: seq<string>, others: seq<string>, drawFavs: nat -> nat, drawOthers: nat -> nat, f: string)
    requires 0 < |favs| <= Grid.CENTRE_SLOTS && |others| > 0 && f in favs
    ensures var fp := Pools.Shuffled(Pools.Expand(favs, Grid.CENTRE_SLOTS), drawFavs);
      var op := Pools.Shuffled(Pools.Expand(others, Grid.OUTER_SLOTS), drawOthers);
      |fp| == Grid.CENTRE_SLOTS && |op| == Grid.OUTER_SLOTS
      && exists k :: 0 <= k < Grid.CELLS && Grid.IsCentre(Grid.CellOf(k)) && PathAt(fp, op, k) == f
  {
    var ef := Pools.Expand(favs, Grid.CENTRE_SLOTS);
    var eo := Pools.Expand(others, Grid.OUTER_SLOTS);
    Pools.ShufflePermutes(ef, drawFavs);
    Pools.ShufflePermutes(eo, drawOthers);
    Pools.ExpandCovers(favs, Grid.CENTRE_SLOTS);
    var fp := Pools.Shuffled(ef, drawFavs);
    var op := Pools.Shuffled(eo, drawOthers);
    assert f in multiset(fp);
    var i :| 0 <= i < |fp| && fp[i] == f;
    Grid.EveryFavouriteSlotUsed(i);
    var cell := Grid.Cell(Grid.START_ROW + i / Grid.CENTRE_COLS, Grid.START_COL + i % Grid.CENTRE_COLS);
    Grid.WalkVisitsEachCell(cell, 0);
    var k := Grid.Index(cell);
    assert PathAt(fp, op, k) == f;
  }
}
