# Real-time person removal: the background compositor

This project models the per-frame background-estimation compositor of the
Real-Time-Person-Removal browser demo and proves what it does. For each
video frame the demo receives a person mask from a body-segmentation model.
The mask holds one entry per pixel, and a non-zero entry means "person". The
compositor then updates a persistent RGBA background estimate (`data`) from
the live frame (`dataL`). Pixels judged to be background are copied from the
live frame with alpha forced to 255. Pixels judged to be covered by a person
keep their last known value. That is how the person disappears from the
output.

There are two alternative versions of `processSegmentation`:

- `script.js` (module `BoundingBox`, file `bounding_box.dfy`). One scan
  finds the tight bounding box of the person pixels. The box is grown 1.3
  times about its centre. A second scan refreshes every pixel outside the
  grown box, or every pixel when no person was found.
- `script_original.js` (module `TiledPatch`, file `tiled_patch.dfy`). Tile
  centres sit at every multiple of `RESOLUTION_MIN` (20). Each centre has a
  search window of half-width `SEARCH_OFFSET` (150), clamped to the frame.
  A window with no person pixel is copied from the live frame.

Module `Frame` (file `frame.dfy`) holds the shared pixel geometry:

- the row-major offset `y * w + x`;
- the four channels `4n .. 4n+3` of pixel `n`;
- the one-pixel refresh.

The mask, the live frame and the background estimate are `array<int>`
inputs. The mask has `w * h` entries and the two RGBA buffers have
`4 * w * h`. The background estimate is updated in place. It must be a
different array from the other two, because each of the three comes from its
own `getImageData` call or from the model.

The methods follow the source's loops: the same visiting order (x outer,
y inner), the same branches, the `break` in the tiled window test, and the
same constants. Each method is proved against a specification:

- `BoundingBox.IsScanOf` says what the scan computes.
- `BoundingBox.Refreshes` is the literal update condition.
- `TiledPatch.TiledRefreshes` is the set of pixels that lie in some clean
  tile's window.

Lemmas then relate these specifications to the properties the compositor is
meant to have.

The scale factor 1.3 is modelled exactly with Dafny `real`. The grown box's
left edge is `minX - 3*(maxX-minX)/20` and its right edge is
`maxX + 3*(maxX-minX)/20`.

Two behaviours of the code are worth stating plainly:

- One might expect a mask with a single person pixel to refresh the whole
  frame, since the tight box has zero area. The code's inside test is
  inclusive, so the grown box is that single point and exactly that pixel
  keeps its old value. See `SinglePixelKeptAlone` and `SinglePixelFourByFour`.
- The condition at script.js:124 reads `(foundBody && xOutside) || yOutside`,
  because `&&` binds tighter than `||`. Together with the `else if
  (!foundBody)` branch, it still refreshes exactly the pixels outside the
  grown box, or all pixels when nothing was found.

## Model

| member | source | states |
|---|---|---|
| `Frame.Offset` | script.js:75-77 | the row-major offset of an in-frame pixel is below `w*h`, so its four channels lie below `4*w*h` |
| `Frame.OffsetInjective` | script.js:121-126 | distinct in-frame pixels have distinct offsets, so writing one pixel never touches another |
| `Frame.PixelsDetermineBuffer` | script.js:119-142 | two RGBA buffers of `4*w*h` entries that agree on every pixel's four channels are equal, so the per-pixel postconditions fix the whole buffer |
| `Frame.RefreshPixel` | script.js:128-131 | pixel `n` gets the live R, G, B and alpha 255, and every other pixel keeps its RGBA |
| `BoundingBox.ScanBounds` | script.js:67-98 | `found` holds iff some mask entry is non-zero; without one the bounds keep their sentinels 100000/100000/0/0; with one, every person pixel lies in `[minX,maxX]×[minY,maxY]`, the maxima are attained, each minimum is at most the sentinel, and it is attained or still the sentinel |
| `BoundingBox.ScanIsUnique` | script.js:67-98 | the scan specification determines the result completely on every frame size, including the case where the sentinel 100000 survives as a minimum |
| `BoundingBox.ScanIsTight` | script.js:67-98 | on frames at most 100000 wide and high, every one of the four bounds is attained by a person pixel, so the box is the tight bounding box |
| `BoundingBox.Grow` | script.js:100-116 | the grown box has the tight box's centre, 1.3 times its width and height, and each edge moved out by 3/20 of the tight extent |
| `BoundingBox.RefreshesOutsideGrownBox` | script.js:124-140 | the literal condition plus the `!foundBody` branch refresh a pixel iff no person was found or the pixel lies outside the closed grown box |
| `BoundingBox.NoBodyFirstBranchRefreshes` | script.js:67-124 | with no person found, the sentinels put the grown box's top edge at 115000 and its bottom edge at -15000, so on any frame the first branch alone refreshes every pixel |
| `BoundingBox.RefreshOutside` | script.js:119-142 | every pixel the condition selects gets the live RGB and alpha 255; every other pixel keeps its prior RGBA |
| `BoundingBox.ProcessSegmentation` | script.js:56-152 | the scan result satisfies the scan specification, and each pixel of `data` is refreshed from `live` if the condition holds for it and otherwise keeps its prior RGBA |
| `BoundingBox.BodyNeverRefreshed` | script.js:101-124 | a person pixel lies inside the grown box, so it is never refreshed and keeps all four channels |
| `BoundingBox.NoBodyRefreshesAll` | script.js:124-139 | with an all-zero mask every pixel is refreshed |
| `BoundingBox.SinglePixelKeptAlone` | script.js:101-124 | a mask with one person pixel gives the zero-area box at that pixel, and a pixel is refreshed iff it is not that pixel |
| `BoundingBox.SinglePixelFourByFour` | script.js:101-124 | on a 4×4 frame with only (2,2) marked, the box is (2,2,2,2), the grown box has zero area, (2,2) is kept and its four neighbours are refreshed |
| `TiledPatch.WindowLo` | script_original.js:88-95 | the clamped lower window edge lies in `[0, t]` and is either 0 or `t - SEARCH_OFFSET` |
| `TiledPatch.WindowHi` | script_original.js:91-98 | the clamped upper window edge lies in `(t, dim]` and is either `dim` or `t + SEARCH_OFFSET` |
| `TiledPatch.WindowHasBody` | script_original.js:100-111 | `foundBodyPartNearby` holds iff some pixel of the window has a non-zero mask entry; the inner-loop `break` does not change the answer |
| `TiledPatch.RefreshWindow` | script_original.js:115-124 | every pixel of the window gets the live RGB and alpha 255; every pixel outside keeps its RGBA |
| `TiledPatch.ProcessTile` | script_original.js:83-140 | for one tile, a pixel is refreshed iff the tile's window is clean and holds it; every other pixel keeps its RGBA |
| `TiledPatch.CoveredBeforeNextRow` | script_original.js:81 | visiting the next tile of a column adds exactly the pixels of that tile's window, when the window is clean |
| `TiledPatch.CoveredBeforeNextColumn` | script_original.js:80 | tile centres are multiples of 20, so finishing a column and starting the next one visits no tile twice and skips none |
| `TiledPatch.ProcessSegmentation` | script_original.js:67-145 | a pixel ends refreshed from `live` iff at least one clean tile's window holds it, and otherwise keeps its prior RGBA, whatever the order tiles are visited in; with `width` or `height` at most 20, the buffer is unchanged |
| `TiledPatch.BodyNeverRefreshed` | script_original.js:100-125 | a person pixel marks every window containing it as dirty, so it is never refreshed |
| `TiledPatch.NoTilesNoRefresh` | script_original.js:80-81 | a frame at most 20 wide or high has no tile centres, so no pixel is refreshed |
| `TiledPatch.CleanFrameRefreshesAll` | script_original.js:58-98 | with an all-zero mask on a frame wider and taller than 20, the windows cover the whole frame (`SEARCH_OFFSET` ≥ `RESOLUTION_MIN`), so every pixel is refreshed |

## Left out

- Model loading (`bodyPix.load`) and inference (`model.segmentPerson`) are foreign ML calls. Their output is the `mask` parameter.
- Canvas plumbing is left out: `getContext`, `getImageData`, `putImageData`, `drawImage` and `createElement`. The arrays these return or receive are parameters. The model does not capture that `putImageData` publishes `data` to the screen.
- The frame loop (`predictWebcam` and its `previousSegmentationComplete` gate) is left out. It is asynchronous `requestAnimationFrame`/promise scheduling.
- `enableCam` and `hasGetUserMedia` are left out. They are browser media APIs, event listeners and DOM class toggling.
- The `DEBUG` visualisation (the green outline in script.js and the red fill in script_original.js) is left out. `DEBUG` is the constant `false`, so it is dead code; the outline is also a canvas draw call.
- The `console.log` of the segmentation is left out, and so are the configuration objects `bodyPixProperties` and `segmentationProperties`. They are only handed to the foreign model.
- BoundingBox.Grow: the scale 1.3 is exact rational arithmetic, not IEEE-754 doubles, so the rounding of `width * 1.3` is not reproduced. A pixel lying within a rounding error of the grown box's edge could be classified differently by the browser.
- The buffers are unbounded integers. The clamping of a `Uint8ClampedArray` never matters here, because the compositor only copies live values and stores 255.
- The tightness of `minX`/`minY` (`ScanIsTight`) holds only for frames at most 100000 pixels wide and high. Above that, the sentinel 100000 can survive as a minimum. `IsScanOf` states that behaviour, and `ScanIsUnique` shows it leaves exactly one possible result.
- The claim that a larger `SEARCH_RADIUS` can only grow the occluded pixel set is not modelled. The source fixes the radius at 300. Per tile a larger window can only turn clean into dirty, but a pixel may then still be refreshed through another tile's larger window.
