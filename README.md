# ETSY image tools, modelled in Dafny

The repository has two image scripts:

- **Banner generator** (`BannerCollageMaker.py`). It tiles photographs into a
  15 × 6 grid on a 2560 × 1440 canvas, with the favourites placed in a centred
  7 × 2 block. It then darkens the edges with a vignette, overlays a logo and
  saves JPEGs.
- **Mockup generator** (`MockupGenerator.py`). For each photo in a folder it:
  - centre-crops the photo to 3:2 or 2:3;
  - adds a white mat and a black frame;
  - for each of five room scenes, asks the Gemini image API to stage the framed
    print in that scene. It is meant to retry with exponential backoff after
    HTTP 429 (as written it never does; see Findings);
  - skips every scene whose output file already exists, so an interrupted run
    can be resumed.

The model keeps the decisions these scripts make and leaves the pixel work to
inputs.

- **Image-name filter, photo pools, banner errors** (`Pools`). The filter is
  `is_image`. The pools are the favourites and the background photos. The
  errors are what `make_banner` raises before it draws anything.
- **Pool expansion and shuffling** (`Pools`):
  - a pool is repeated to fill its slots;
  - `random.shuffle` is CPython's Fisher–Yates walk over an array;
  - the random draws are an input function, and `draw(i) % (i + 1)` stands for `randbelow(i + 1)`.
- **Grid geometry** (`Grid`): gutter and tile sizes, tile positions, the centre
  block, and the row-major walk with its two running indices.
- **The canvas** (`Imaging`): a class over an `array2` of pixels. `paste`
  changes it in place, clipped to the canvas. The banner's nested loops
  (`Banner`) are methods proved against `Painted`, the fold that gives the
  canvas after the first `k` cells.
- **`fit_crop`** (`Crop`): the centre crop of `fit_crop`, which
  `add_frame_and_mat` shares. It also uses the mat and frame geometry
  (`Framing`).
- **The vignette mask** (`Vignette`): the mask loop, as a method over an
  `array2`.
- **The dominant-colour naming rules** (`Colour`).
- **The request and retry loop** (`Gemini`). The server is a function from the
  attempt number to the classified outcome of that POST.
- **The resumable photo/scene loop of `main`** (`Mockups`). It produces the new
  set of output files and a trace of observable events: framing, API calls,
  saves, the sleeps between scenes and the sleeps between photos. Whether a 429
  is retried as intended or handled as written is part of the environment
  (`World.client`), so every lemma about the loop holds for both.

The Python scripts compare floats. Every such comparison is written here in
exact integer or real arithmetic:

- `iw/ih > tw/th` becomes `iw*th > tw*ih`;
- `int(tw/th * ih)` becomes `tw*ih / th`;
- `abs(iw/ih - 3/2) > 0.01` becomes `100*|2*iw - 3*ih| > 2*ih`;
- `r > b*1.2` becomes `5*r > 6*b`;
- `int(255 * (i/100)**2)` becomes `255*i*i / 10000`.

For the last one, `255·i²/10000` is never a whole number for `0 < i < 100`, and
its fractional part is at least `1/10000`. Double rounding cannot carry it across
an integer, so the exact floor is the value Python computes. The other
comparisons agree with the source except where a float lands within rounding
error of a boundary.

The model follows the code where the scripts' own descriptions differ from it:

- **Retries.** As evidently intended, `generate_mockup_with_gemini` makes at
  most three POSTs in total, with waits of 5 and 10 seconds. After a third 429
  it gives up; there is no fourth attempt and no 20-second wait
  (`Gemini.ThreeRateLimits`). As written, it makes one POST and never waits
  (see Findings).
- **Favourites.** The module docstring speaks of 14 favourites. The code
  accepts any non-empty number:
  - with fewer than 14, the pool is cycled to fill the block;
  - with more than 14, only the first 14 in listing order ever reach the
    shuffle (`Pools.ExpandTruncates`).

The retry loop as written never retries (see Findings). `Gemini.Generate`,
`Gemini.GenerateMockup` and everything built on them model the retry as
evidently intended; `Gemini.GenerateAsWritten` keeps the code as written.

Observations about the source that the proofs make visible:

- **The vignette is one disc.** The hundred ellipses of `add_vignette` are drawn
  from the smallest to the largest, each filled, and each later one covers the
  earlier ones. So before the blur, the mask is a single disc at grey level
  249, not a gradient (`Vignette.MaskIsLastEllipse`).
- **"cool neutral" is never returned.** A colour with `b > 1.2·r` and
  `b > 1.1·g` is already caught by the "cool blue" rule
  (`Colour.CoolNeutralUnreachable`). Every other name is returned for some
  colour (`Colour.OtherNamesReachable`).
- **Output names can collide.** Output names keep only the stem, so `a.jpg`
  and `a.png` share their mockup files. Scenes saved for the first photo are
  skipped for the second as already done (`Mockups.StemOfExtension`, `Mockups.NoRequestForExisting`).

## Model

| member | source | states |
|---|---|---|
| Text.Lower | BannerCollageMaker.py:43 | lowering keeps the length of the name |
| Text.LowerAppend | BannerCollageMaker.py:43 | lowering a concatenation lowers each part |
| Text.EndsWith | BannerCollageMaker.py:44 | `str.endswith` for one suffix: the suffix fits and the string's last characters are the suffix |
| Text.StartsWith | BannerCollageMaker.py:44 | `str.startswith` for one prefix: the prefix fits and the string's first characters are the prefix |
| Text.HasImageExtension | MockupGenerator.py:210 | the extension tuple both scripts test (BannerCollageMaker.py:44 as well): the name ends in `.jpg`, `.jpeg`, `.png` or `.webp` |
| Text.BaseName | BannerCollageMaker.py:44 | the base name is a suffix without '/', either the whole path or preceded by '/' |
| Text.BaseNameOfJoin | BannerCollageMaker.py:103-104 | the base name of `dir/name` is `name` when `name` has no '/' |
| Pools.IsImage | BannerCollageMaker.py:42-44 | `is_image`: the lowered name ends in one of the four image extensions and its base name does not start with `._` |
| Pools.IsImageIgnoresCase | BannerCollageMaker.py:42-44 | the image filter gives the same answer for a name and its lowered form |
| Pools.IsImageInFolder | BannerCollageMaker.py:42-44 | for `dir/name`, the filter holds iff the lowered `name` has an image extension and does not start with `._` |
| Pools.Favourites | BannerCollageMaker.py:103 | a path is a favourite iff it is `Favs/f` for a listed `f` and passes the image filter; the order is the listing's (`FavouritesOfOne`, `FavouritesAppend`) |
| Pools.FavouritesOfOne | BannerCollageMaker.py:103 | a listing of one name gives `Favs/name` when that passes the filter and nothing otherwise |
| Pools.FavouritesAppend | BannerCollageMaker.py:103 | the favourites of two listings one after the other are the first's favourites followed by the second's |
| Pools.FavNames | BannerCollageMaker.py:104 | `fav_names`: the set of the favourites' base names |
| Pools.Background | BannerCollageMaker.py:104-105 | a photo is in the background pool iff it is in the archive and its base name is no favourite's base name; the order is the archive's (`BackgroundOfOne`, `BackgroundAppend`) |
| Pools.BackgroundOfOne | BannerCollageMaker.py:105 | a one-photo archive keeps its photo iff the photo's base name is no favourite's |
| Pools.BackgroundAppend | BannerCollageMaker.py:105 | the background of two archives one after the other is the first's background followed by the second's |
| Pools.Gather | BannerCollageMaker.py:100-108 | a missing `Favs` folder, then an empty favourites pool, then an empty background pool, each iff its condition holds, in that order; on success the pools are exactly `Favourites` of the listing and `Background` of the archive against the favourites' base names, both non-empty, with no background photo sharing a base name with a favourite |
| Pools.Repeat | BannerCollageMaker.py:122-123 | `s * k` has `k` times the length of `s` |
| Pools.RepeatAt | BannerCollageMaker.py:122-123 | element `i` of `s * k` is element `i` modulo the length of `s` |
| Pools.Expand | BannerCollageMaker.py:122-123 | the expanded pool has exactly `slots` entries, entry `i` being the pool's entry `i` modulo the pool's length |
| Pools.ExpandCovers | BannerCollageMaker.py:122-123 | with at least as many slots as photos, every photo of the pool is placed |
| Pools.ExpandTruncates | BannerCollageMaker.py:122-123 | with at most as many slots as photos, the first `slots` photos are placed and no others |
| Pools.Swap | BannerCollageMaker.py:124-125 | the two positions are exchanged and every other position is kept |
| Pools.SwapPermutes | BannerCollageMaker.py:124-125 | an exchange keeps the multiset |
| Pools.ShuffleDown | BannerCollageMaker.py:124-125 | the Fisher–Yates walk from position `i` down to 1, exchanging position `i` with position `draw(i)` modulo `i + 1`; the length is kept |
| Pools.Shuffled | BannerCollageMaker.py:124-125 | `random.shuffle` for the given draws: a pool of at most one photo is left alone, any other is walked down from its last position |
| Pools.ShufflePermutes | BannerCollageMaker.py:124-125 | whatever the draws, the shuffled pool is a permutation of the pool |
| Pools.ShuffleIdentity | BannerCollageMaker.py:124-125 | the draws that exchange each position with itself leave the pool as it was |
| Pools.Shuffle | BannerCollageMaker.py:124-125 | the in-place Fisher–Yates walk leaves the array equal to `Shuffled` of its old contents |
| Crop.CentreCrop | BannerCollageMaker.py:54-61 | a wider image loses only columns, equally on both sides, keeping within one column of `tw*ih/th`; otherwise it loses only rows, likewise |
| Crop.FitCrop | BannerCollageMaker.py:50-62 | no result iff the image has zero height; otherwise the centre-crop box and a resize to exactly `tw × th` |
| Crop.FitCropBox | BannerCollageMaker.py:54-62 | the box lies inside the image, is symmetric, and keeps `new_width` or `new_width + 1` columns (`new_height` or `new_height + 1` rows) |
| Grid.Gutter | BannerCollageMaker.py:114 | `grid_w`: 6 for the cinematic style, 16 for any other |
| Grid.TileWidth | BannerCollageMaker.py:116 | `tile_w`: the canvas width less 16 gutters, shared by 15 columns and rounded down |
| Grid.TileHeight | BannerCollageMaker.py:117 | `tile_h`: the canvas height less 7 gutters, shared by 6 rows and rounded down |
| Grid.GutterSizes | BannerCollageMaker.py:114-117 | gutter 6 iff the style is cinematic, else 16, with tiles of 164 × 233 and 153 × 221 |
| Grid.TileX | BannerCollageMaker.py:146 | the left edge of column `c`: one gutter, then `c` tiles each followed by a gutter |
| Grid.TileY | BannerCollageMaker.py:147 | the top edge of row `r`, likewise |
| Grid.TileInsideCanvas | BannerCollageMaker.py:116-117 | every tile has positive size and lies inside the canvas, at least one gutter from each edge |
| Grid.NeighboursOneGutterApart | BannerCollageMaker.py:146-147 | adjacent tiles are exactly one gutter apart, horizontally and vertically |
| Grid.ColumnsApart | BannerCollageMaker.py:146 | a tile in an earlier column ends at least a gutter before a later column's tile starts |
| Grid.RowsApart | BannerCollageMaker.py:147 | likewise for rows |
| Grid.TilesDisjoint | BannerCollageMaker.py:146-148 | no pixel lies in the tiles of two different cells |
| Grid.IsCentre | BannerCollageMaker.py:127-135 | a cell is in the centre block iff its row is in `start_row .. end_row - 1` and its column in `start_col .. end_col - 1` |
| Grid.CellOf | BannerCollageMaker.py:133-134 | the `k`-th cell of the walk is a cell of the grid |
| Grid.WalkVisitsEachCell | BannerCollageMaker.py:133-134 | the row-major walk and the cell index are inverse, so each cell is visited exactly once |
| Grid.CentreBefore | BannerCollageMaker.py:135-140 | `fav_idx` before step `k` never exceeds `k` |
| Grid.CentreBeforeIsClosed | BannerCollageMaker.py:127-137 | `fav_idx` before step `k` is the centre cells in the rows above plus those to the left in its row |
| Grid.ClosedStep | BannerCollageMaker.py:135-137 | the closed count grows by one exactly at a centre cell |
| Grid.CentreBlock | BannerCollageMaker.py:110-130 | the centre block spans columns 4-10 and rows 2-3; the walk takes 14 favourites and 76 background photos |
| Grid.CountsGrow | BannerCollageMaker.py:132-140 | `fav_idx` and `other_idx` never decrease along the walk |
| Grid.IndicesInRange | BannerCollageMaker.py:136-139 | each index read is inside its list, so neither lookup raises |
| Grid.IndicesDistinct | BannerCollageMaker.py:136-139 | two centre cells read different favourite slots and two outer cells different background slots |
| Grid.EveryFavouriteSlotUsed | BannerCollageMaker.py:127-137 | slot `i` of the favourites is read by the cell in row `2 + i/7`, column `4 + i mod 7` |
| Imaging.Canvas.constructor | BannerCollageMaker.py:113 | a fresh canvas of the given size with every pixel in the given colour |
| Imaging.Canvas.Paste | BannerCollageMaker.py:148 | each covered canvas pixel takes the tile's pixel; every other pixel is unchanged |
| Banner.TileFor | BannerCollageMaker.py:142-145 | a tile exists iff the photo opens with a positive height, and then it has the tile size |
| Banner.PathAt | BannerCollageMaker.py:135-140 | the photo read at cell `k`: the favourite slot numbered by the centre cells before `k`, or the background slot numbered by the other cells before `k` |
| Banner.Painted | BannerCollageMaker.py:132-148 | a canvas pixel after the first `k` cells: black at first, then overwritten by each cell whose photo gives a tile covering it |
| Banner.CellPixel | BannerCollageMaker.py:142-148 | the pixel a cell's tile shows at a point of that tile: its photo's pixel, or black when the photo gives no tile |
| Banner.MakeBannerGrid | BannerCollageMaker.py:100-150 | errors exactly as `Gather` does; otherwise the placed lists are the shuffled expansions, and the fresh 2560 × 1440 canvas is `Painted` after all 90 cells |
| Banner.WalkGrid | BannerCollageMaker.py:132-150 | from the black canvas, the row loop leaves the canvas painted for all 90 cells |
| Banner.WalkRow | BannerCollageMaker.py:134-150 | one row of the walk advances both indices by that row's cells and paints the row's 15 cells |
| Banner.NextPhoto | BannerCollageMaker.py:135-140 | the photo read for a cell is `PathAt` for its position, and exactly one index advances by one |
| Banner.PasteCell | BannerCollageMaker.py:142-150 | the canvas after the cell is the one `Painted` gives with one more cell painted |
| Banner.Unchanged | BannerCollageMaker.py:142-150 | cells whose tiles miss a pixel leave that pixel as it was |
| Banner.TileShowsItsPhoto | BannerCollageMaker.py:142-150 | in a finished banner, each pixel of a tile shows that tile's photo, or stays black when the photo could not be processed |
| Banner.GuttersStayBlack | BannerCollageMaker.py:113-150 | a pixel outside every tile stays black |
| Banner.CellsDrawFromTheirPool | BannerCollageMaker.py:122-140 | whatever the shuffles draw, a centre cell shows a favourite and any other cell a background photo |
| Banner.EveryFavouriteShown | BannerCollageMaker.py:122-137 | with at most 14 favourites, every favourite appears in the centre block whatever the shuffle draws |
| Vignette.Alpha | BannerCollageMaker.py:71 | the grey level of ellipse `i`, `int(255 * (i/100)**2)` taken as the exact floor of `255*i*i/10000` |
| Vignette.Radius | BannerCollageMaker.py:70 | the radius of ellipse `i`, the floor of `max_radius * i / 100` |
| Vignette.AlphaEnds | BannerCollageMaker.py:71 | the grey levels run from 0 to 249 |
| Vignette.AlphaGrows | BannerCollageMaker.py:71 | the grey levels never decrease and fit in a byte |
| Vignette.RadiusGrows | BannerCollageMaker.py:70 | the radii are non-negative and never shrink |
| Vignette.MaskAfter | BannerCollageMaker.py:69-72 | the mask value at distance `d` after `n` ellipses: the grey level of the last of them whose radius reaches `d`, or 0 when none does |
| Vignette.Uncovered | BannerCollageMaker.py:69-72 | a pixel beyond the largest radius drawn so far is still 0 |
| Vignette.MaskIsLastEllipse | BannerCollageMaker.py:69-72 | the finished mask is 249 within the last radius and 0 outside it |
| Vignette.VignetteMask | BannerCollageMaker.py:66-72 | the fresh mask holds, at each pixel, the value the 100 ellipses leave at its distance |
| Vignette.DrawDisc | BannerCollageMaker.py:72 | pixels within the radius take the fill and all others keep their value |
| Framing.TargetAspect | MockupGenerator.py:73-74 | 3:2 iff the photo is landscape, 2:3 iff it is square or portrait |
| Framing.NeedsCrop | MockupGenerator.py:75-78 | the aspect `iw/ih` differs from the target `p/q` by more than 0.01, as `100*abs(iw*q - p*ih) > q*ih` |
| Framing.Cropped | MockupGenerator.py:75-88 | unchanged when within the tolerance; otherwise exactly one side is trimmed, to within one pixel of the target aspect |
| Framing.FrameAndMat | MockupGenerator.py:64-96 | no framed image iff the photo cannot be opened or has zero height; otherwise each side grows by the mat and the frame |
| Framing.FramedGrowth | MockupGenerator.py:91-92 | the framed size is the cropped size plus 260, and a photo within tolerance only gains the borders |
| Colour.ColourName | MockupGenerator.py:105-122 | the name is one of the listed names and never the fallback |
| Colour.DominantColourName | MockupGenerator.py:98-126 | the name is listed, and it is "harmonious" iff the extraction failed |
| Colour.CoolNeutralUnreachable | MockupGenerator.py:114-120 | no colour is named "cool neutral" |
| Colour.OtherNamesReachable | MockupGenerator.py:105-122 | every other listed name is returned for some colour |
| Gemini.AttemptsFrom | MockupGenerator.py:154-197 | the reply once attempts `0 .. k-1` were all rate limited: an image ends the call, a 429 before the last attempt goes on to the next one, anything else ends it with no image; the waits are the backoffs of the earlier attempts |
| Gemini.Generate | MockupGenerator.py:128-197 | the whole call as intended: no POST without an API key, otherwise `AttemptsFrom` attempt 0 |
| Gemini.Pow2 | MockupGenerator.py:185 | powers of two are positive |
| Gemini.Backoff | MockupGenerator.py:185 | the wait after a 429 on attempt `i`, `RETRY_DELAY * 2**i` |
| Gemini.Backoffs | MockupGenerator.py:185 | the waits before attempt `k` are `5 * 2**i` for each earlier attempt `i` |
| Gemini.GenerateMockup | MockupGenerator.py:128-197 | the loop's reply (image, POSTs made, waits) equals `Generate` |
| Gemini.SkipRateLimited | MockupGenerator.py:183-187 | attempts that were all rate limited hand the call over unchanged to the next attempt |
| Gemini.RetryBounds | MockupGenerator.py:154-190 | at most 3 POSTs; none iff the API key is empty; otherwise one more POST than waits, the waits being a prefix of 5, 10 |
| Gemini.AttemptsBounds | MockupGenerator.py:154-190 | from attempt `k`, between `k + 1` and 3 POSTs, with the backoffs for the earlier ones as the waits |
| Gemini.SuccessExactly | MockupGenerator.py:162-175 | an image on attempt `k` after `k` rate limits is returned after `k + 1` POSTs and the first `k` backoffs |
| Gemini.SuccessOnlyAfterRateLimits | MockupGenerator.py:154-187 | an image is returned only with a key, and only when every earlier attempt was a 429 and the last POST succeeded with that image |
| Gemini.SuccessFrom | MockupGenerator.py:154-187 | the same from any attempt `k` on |
| Gemini.TerminalOutcome | MockupGenerator.py:162-196 | a safety block, a malformed reply or any other error ends the call with no image and no retry |
| Gemini.ThreeRateLimits | MockupGenerator.py:183-190 | three 429s give no image after 3 POSTs and waits of 5 and 10 seconds |
| Gemini.GenerateAsWritten | MockupGenerator.py:182-196 | as written, at most one POST and no wait, and no POST iff the key is empty |
| Gemini.AsWrittenAgreesWithoutRateLimit | MockupGenerator.py:182-196 | as written and as intended agree unless the first POST is rate limited |
| Gemini.RateLimitedOnce | MockupGenerator.py:183-187 | one 429 then a success: as intended, the image after 2 POSTs and a 5-second wait; as written, no image after 1 POST |
| Gemini.Respond | MockupGenerator.py:128-197 | under either reading of the handler: at most 3 POSTs, none iff the API key is empty, one more POST than waits and the waits a prefix of 5, 10; an image is returned only when the last POST returned it |
| Mockups.Stem | MockupGenerator.py:227 | the stem is a prefix of the file name |
| Mockups.LastDot | MockupGenerator.py:227 | the last '.' of the name, or -1 when there is none |
| Mockups.StemOfExtension | MockupGenerator.py:227 | the stem of `name.ext` is `name` |
| Mockups.OutputName | MockupGenerator.py:227 | `f"{stem}_{scene_name}_mockup.jpg"` |
| Mockups.OutputNameShape | MockupGenerator.py:227 | an output name is the stem, `_`, the scene, then `_mockup.jpg` |
| Mockups.OutputNamesDistinct | MockupGenerator.py:225-227 | two scenes give a photo different output names |
| Mockups.ImageFiles | MockupGenerator.py:210 | a name is processed iff it is listed and its lowered form has an image extension; the order is the listing's (`ImageFilesOfOne`, `ImageFilesAppend`) |
| Mockups.ImageFilesOfOne | MockupGenerator.py:210 | a listing of one name keeps it iff its lowered form has an image extension |
| Mockups.ImageFilesAppend | MockupGenerator.py:210 | the image files of two listings one after the other are the first's followed by the second's |
| Mockups.SceneStep | MockupGenerator.py:225-252 | one scene: nothing after the break or when its output exists; otherwise frame the photo if not yet framed, break on a framing failure, else `Request` |
| Mockups.ReplyFor | MockupGenerator.py:243 | the reply to the call for scene `j` of a photo, from the client, the key and the server |
| Mockups.Request | MockupGenerator.py:243-252 | the call, a save iff the reply has an image, then a scene sleep unless the scene is the last |
| Mockups.ScenesUpTo | MockupGenerator.py:223-252 | the scene loop after its first `n` scenes, starting unframed and with no events |
| Mockups.PhotoRun | MockupGenerator.py:222-252 | the scene loop over all five scenes |
| Mockups.RunUpTo | MockupGenerator.py:218-256 | the photo loop after its first `i` photos, a photo sleep following each photo but the last |
| Mockups.RunMockups | MockupGenerator.py:204-256 | a missing input folder or no images leave the outputs unchanged with no events; otherwise the whole photo loop |
| Mockups.RunPhotos | MockupGenerator.py:218-256 | the photo loop's outputs and events equal `RunUpTo` over all photos |
| Mockups.RunPhoto | MockupGenerator.py:222-252 | the scene loop's outputs and events equal `PhotoRun` |
| Mockups.StoppedStays | MockupGenerator.py:239-241 | after the break on a framing failure, later scenes change nothing |
| Mockups.CountAppend | MockupGenerator.py:218-256 | event counts add up over concatenated traces |
| Mockups.FramingHolds | MockupGenerator.py:223-241 | after `n` scenes the photo has been framed or has failed to be iff one of those scenes was missing; until then there are no events and no new outputs; a framed photo is `add_frame_and_mat`'s result; a break happens only on a framing failure, whose one event is that framing; outputs only grow |
| Mockups.EventsHold | MockupGenerator.py:225-252 | after `n` scenes every call and save is for an output that did not exist, and every call is for one of those scenes |
| Mockups.FrameCountHolds | MockupGenerator.py:236-241 | after `n` scenes there is one framing event if the photo has been framed or failed to be, and none otherwise |
| Mockups.SleepCountHolds | MockupGenerator.py:243-252 | after `n` scenes the scene sleeps equal the calls, less one when all scenes are done and the last one was requested |
| Mockups.NoRequestForExisting | MockupGenerator.py:227-232 | a scene whose output existed is never requested or saved, and outputs are only added |
| Mockups.FramedAtMostOnce | MockupGenerator.py:223-241 | a photo is framed at most once, and once iff one of its outputs is missing |
| Mockups.FramingFailureStops | MockupGenerator.py:238-241 | when framing fails, the single framing attempt (if any) is the photo's only event, and no output is added |
| Mockups.SceneSleeps | MockupGenerator.py:250-252 | the photo's scene sleeps are its calls, less one when the last scene was requested |
| Mockups.CompletePhotoIsQuiet | MockupGenerator.py:225-232 | a photo with every output present is not framed, requested or slept on |
| Mockups.CompletedRunIsQuiet | MockupGenerator.py:218-256 | re-running after a complete run changes nothing; its only events are the sleeps between photos |
| Mockups.RunNeverRedoes | MockupGenerator.py:218-256 | across the whole run, no output that existed before is requested or overwritten |
| Mockups.CountNone | MockupGenerator.py:218-256 | a trace with no event of a kind counts none of it |
| Mockups.PhotoSleeps | MockupGenerator.py:254-256 | after `i` photos the run has slept between photos `i` times, or `i - 1` once all photos are done, so `n - 1` times in a run of `n` photos |
| Mockups.SavedUpTo | MockupGenerator.py:225-248 | an output is saved by the first `n` scenes iff it is one of their output names, was missing at the start, and the reply for that scene has an image |
| Mockups.OutputsHold | MockupGenerator.py:225-248 | for a photo that can be framed, after `n` scenes the outputs are the old ones plus `SavedUpTo`, and every missing scene among them has been requested |
| Mockups.OutputStep | MockupGenerator.py:225-248 | one scene keeps that invariant |
| Mockups.MissingSceneRequested | MockupGenerator.py:225-243 | a scene whose output is missing, of a photo that can be framed, is requested |
| Mockups.PhotoOutputs | MockupGenerator.py:222-248 | a photo's loop ends with exactly the old outputs plus the missing scenes' outputs whose reply has an image, or with the old outputs alone when the photo cannot be framed |

## Findings

| source | as written | input that shows it | evidently intended | confidence | as-written member | corrected member |
|---|---|---|---|---|---|---|
| MockupGenerator.py:183 | `if e.response and e.response.status_code == 429` tests the response for truth; a `requests` response is falsy when its status is 400 or more, so a 429 never passes the test and ends the call in the error branch | a first POST answered with 429 and a second with an image: the call gives up with no mockup after one POST | a 429 is retried, up to three POSTs in all, after 5 and then 10 seconds | high; not executed | Gemini.GenerateAsWritten, Gemini.RateLimitedOnce | Gemini.Generate, Gemini.RetryBounds, Gemini.SuccessExactly |

## Left out

- Pixel operations of the imaging library are inputs or left out. Covered this way:
  - LANCZOS resampling is the `resample` input of `Banner.Photos`;
  - the Gaussian blur, inversion and compositing of `add_vignette`;
  - `paste_logo`: the scaling, the opacity and the alpha compositing;
  - the fill colours of `ImageOps.expand`, where only sizes are modelled;
  - `convert`.
- `math.hypot` and the rasterisation of `draw.ellipse` are not modelled:
  - each pixel's distance from the centre and `max_radius` are inputs of `Vignette.VignetteMask`;
  - a pixel counts as inside when its distance is at most the radius.
- Float rounding is not modelled. Comparisons are exact, so an aspect or colour
  value within one rounding error of its threshold may be classified
  differently than by the float code.
- `Colour.ColourName`:
  - ColorThief's palette quantisation is not modelled; the extracted dominant colour (or its failure) is the input;
  - `get_dominant_color_name` is never called in the source, and is modelled for its own sake.
- The HTTP exchange is not modelled. Each POST's classified outcome is a function
  of photo, scene and attempt, so it leaves out:
  - JSON and base64 encoding and decoding;
  - the prompts, the payload, the timeout and the safety settings.
- `Gemini.GenerateMockup`: the `except` clause catches only `requests` exceptions,
  so failures of any other kind end the script. None of them is modelled; the
  outcomes are the five classified ones. These failures include:
  - a reply whose `candidates` list is empty makes line 162 raise `IndexError`;
  - a JSON body, or a `candidates[0]`, that is not an object makes `result.get`
    (line 162) or `candidate.get` (line 165) raise `AttributeError`;
  - image data that is not valid base64 makes line 174 raise `binascii.Error`;
  - decoded bytes that are no image make line 175 raise `UnidentifiedImageError`;
  - `Image.open` decodes lazily, so an image with a valid header but corrupt
    data raises `OSError` only at `convert(...).save` (line 247), outside any
    `try` in `main`. A `Success` outcome of the model is always saved.
- The filesystem is an input:
  - zip extraction and `os.walk`, where `allImgs`, the archive's image paths, is an input;
  - `os.listdir`, `os.path.isdir` and `os.path.exists`;
  - `os.makedirs` and saving JPEGs.
  The output folder is the set of names it contains.
- Randomness is an input: the draws of `random.shuffle` are the functions `drawFavs` and `drawOthers`.
- Time: `time.sleep` is modelled as `SceneSleep` and `PhotoSleep` events in the trace.
- Console logging (`print`) is left out.
- The loop over `OUTPUTS` that makes four banners, and the JPEG quality settings, are left out.
- `Text.Lower`: lowers ASCII letters only, where Python's `str.lower` is Unicode-aware.
- `Mockups.Stem`: models `os.path.splitext` for a bare file name (no directory part), which is what `main` passes.
