# Column sort animation engine (sketch.js)

The gallery gives each image one p5.js instance. Each instance runs a
"pixel sort" animation. While the mouse is over the image, each frame
sorts the next four pixel columns top to bottom by brightness. When the
mouse leaves, each frame copies four columns of the original back, from
right to left. This project models the engine that one instance runs (the
closure returned by `sketchFactory`) and proves properties of it in Dafny.

- `raster.dfy`, module `Raster`: the flat RGBA buffer (`Uint8ClampedArray`)
  in which pixel (x, y) starts at byte `(y * W + x) * 4`. It also has the
  index arithmetic. `Col`, `Row` and `Chan` recover the column, row and
  channel from a byte index.
- `columnsort.dfy`, module `ColumnSort`: the brightness key, the in-place
  sort of one column (`columnPixels.sort`), and what a sorted, opaque column
  is (`IsSortedColumnOf`): brightness ascends from top to bottom, every alpha
  is 255, and the pixels are the original column's pixels with alpha 255,
  rearranged.
- `cursor.dfy`, module `Cursor`: the progress cursor `sortProgress` and the
  clamped arithmetic that moves it, with how many frames it takes to reach
  either edge.
- `sketch.dfy`, module `Sketch`: class `Engine`, which holds the state of
  the closure:
  - `original` is `originalImg.pixels`;
  - `display` is `displayImg.pixels`;
  - `cursor` is `sortProgress`;
  - `hovering` is `isHovering`;
  - `looping` is the draw-loop status.

  Its operations are the constructor (`p.setup`), `StartSort`,
  `StartReset` and `Tick` (`p.draw`). The invariant `Valid()` holds after
  every operation. It says that the two buffers are distinct arrays of
  `4 * W * H` bytes. Every column left of the cursor is a sorted, opaque
  column of the original, and every byte of a column at or right of the
  cursor equals the original's (`Consistent`).

Client methods in `sketch.dfy` check scenarios against these contracts
alone:
- `HoverAndLeaveBeforeAnyFrame`: hover-start then hover-end with no frame in
  between. The next frame finds the cursor at 0, leaves the display equal to
  the original, and stops the loop.
- `RepeatedStartSort`: a second hover-start gives the same state as the
  first.
- `Run`: n frames with the hover state held leave the cursor at
  `CursorAfter(cursor, hovering, W, n)`.
- `LeaveAndRestore`: hover-end from any valid state, then ⌈cursor / 4⌉
  frames, leaves the display byte-identical to the original.
- `HoverUntilSorted`: hover-start from any valid state, then ⌈W / 4⌉
  frames, leaves every column sorted by brightness and fully opaque.

How the pieces fit together:
- `Tick` moves the cursor to `NextCursor(old cursor)`, so n frames with an
  unchanged hover state leave it at `CursorAfter(cursor, hovering, W, n)`
  (`Run`).
- `SortConverges` and `RestoreConverges` say that this reaches W, or 0,
  after exactly ⌈distance / 4⌉ frames.
- Since `Valid()` holds throughout, `SortedWhenCursorAtWidth` and
  `ResetIffCursorZero` then give the final picture: fully sorted, or
  byte-identical to the original (`HoverUntilSorted`, `LeaveAndRestore`).

`ANIMATION_SPEED` is `Cursor.AnimationSpeed` (4). The brightness key is
`max(r, g, b)`. p5's `brightness` of an RGB colour is its HSB brightness,
which is this maximum rescaled by a strictly increasing map, so the sort
order is the same. The proofs use only that the key is an integer computed from r, g and b alone, so that forcing alpha does not change it.

Two details of the code that the model follows exactly:
- The frame that brings the cursor to W (or to 0) does not stop the draw
  loop. Only the next frame, which finds the cursor already at that edge,
  calls `noLoop` (sketch.js:126-128, 147-149). `Tick` reports `stopped`
  exactly in that boundary case.
- The restore frame copies a block of `ANIMATION_SPEED` columns from
  `startCol`. p5's `copy` clips such a block at the right edge. The model
  uses the clipped width `min(4, W - startCol)` (`BlockEnd`).

## Model

| member | source | states |
|---|---|---|
| Raster.Idx | sketch.js:98 | the byte index of channel c of pixel (x, y), `(y*W + x)*4 + c`; its meaning is stated by `Decompose` and `IdxInBounds` |
| Raster.Decompose | sketch.js:98 | the pixel index `(y*W + x)*4 + c` with x < W, c < 4 maps back to exactly (x, y, c): distinct pixels and channels never share a byte |
| Raster.IdxInBounds | sketch.js:116 | every index the read and write loops touch, `(y*W + x)*4 + c` with x < W, y < H, c < 4, lies below `4*W*H` |
| ColumnSort.Brightness | sketch.js:108-110 | the sort key is the largest of r, g and b (the HSB brightness p5 computes, unscaled) and ignores alpha |
| ColumnSort.Opaque | sketch.js:117-120 | a written pixel keeps r, g, b and brightness, and its alpha is 255 |
| ColumnSort.SortByBrightness | sketch.js:108-110 | sorting `columnPixels` in place leaves brightness non-decreasing and the contents a permutation of what was there |
| ColumnSort.InsertLeft | sketch.js:108-110 | one insertion step turns a sorted prefix of length i into a sorted prefix of length i + 1 and only rearranges the pixels |
| ColumnSort.MapPermutation | sketch.js:114-121 | forcing alpha on every pixel of two permutations of a column gives two permutations of each other |
| ColumnSort.OpaqueSortedIsSortedColumn | sketch.js:106-121 | a brightness-sorted permutation of the original column, written back with alpha 255, is a sorted column of the original |
| ColumnSort.SortedColumnBrightnessUnique | sketch.js:108-110 | any two sorted columns of the same original have the same brightness at every row: the result is fixed up to the order of equally bright pixels |
| Cursor.BlockEnd | sketch.js:93 | the end of a 4-column block from column start, `min(start + 4, W)`, lies above start, at most 4 columns on, within the image, and is start + 4 or W; it ends both the sorted block and the clipped restore copy |
| Cursor.RestoreStart | sketch.js:132 | a restoring frame's start column `max(0, cursor - 4)` lies below the cursor, at most 4 columns back, and is cursor - 4 or 0 |
| Cursor.AtBoundary | sketch.js:126-149 | the frame's `noLoop` condition: hovering with the cursor at W (lines 126-128), or not hovering with the cursor at 0 (lines 147-149); `NextCursor` fixes the cursor exactly when it holds |
| Cursor.NextCursor | sketch.js:90-150 | one frame keeps the cursor in [0, W], strictly advances it (by at most 4) while hovering below W, strictly moves it back (by at most 4) while not hovering above 0, and leaves it fixed exactly at the matching edge |
| Cursor.CursorAfter | sketch.js:89-154 | n frames with a constant hover state keep the cursor within [0, W] |
| Cursor.SortingProgress | sketch.js:92-125 | n hovering frames from cursor c leave the cursor at `min(c + 4n, W)` |
| Cursor.RestoringProgress | sketch.js:131-146 | n non-hovering frames from cursor c leave the cursor at `max(c - 4n, 0)` |
| Cursor.FramesFor | sketch.js:21 | the frame count for d columns is ⌈d / 4⌉: 4n covers d, 4(n - 1) does not |
| Cursor.SortConverges | sketch.js:90-128 | hovering, the cursor reaches W after ⌈(W - c)/4⌉ frames and is below W before that |
| Cursor.RestoreConverges | sketch.js:130-149 | not hovering, the cursor reaches 0 after ⌈c/4⌉ frames and is above 0 before that |
| Sketch.Consistent | sketch.js:92-146 | the engine invariant: columns left of `sortProgress` hold sorted, opaque columns of the original, every other byte is the original's |
| Sketch.ResetIffCursorZero | sketch.js:160-172 | the engine invariant at cursor 0 holds exactly when the display is byte-identical to the original |
| Sketch.SortedWhenCursorAtWidth | sketch.js:95-121 | at cursor W every display column has non-decreasing brightness from top to bottom and alpha 255 everywhere |
| Sketch.CopyColumns | sketch.js:134-144 | the block copy writes the source's bytes into exactly the columns [lo, hi) of the destination, full height, and leaves every other byte as it was |
| Sketch.FullCopy | sketch.js:70-80 | copying the columns [0, W) makes the display a byte-for-byte copy of the original |
| Sketch.ReadColumn | sketch.js:96-104 | the extracted `columnPixels` is column x of the original, top to bottom, with all four channels |
| Sketch.WriteOpaqueColumn | sketch.js:113-121 | after the write loop, display column x is the sorted pixels with alpha 255, top to bottom, and no byte outside column x changed |
| Sketch.SamePixel | sketch.js:116 | writing pixel (x, y) leaves every other pixel of column x intact |
| Sketch.SortColumn | sketch.js:95-121 | one column of a sorting frame becomes a sorted, opaque column of the original's column, and nothing outside it changes |
| Sketch.SortColumns | sketch.js:95-122 | a sorting frame makes every column in [cursor, endCol) a sorted, opaque column of the original and writes no byte outside those columns |
| Sketch.SortFrameKeepsConsistent | sketch.js:92-125 | sorting the columns [cursor, endCol), and nothing else, carries the engine invariant from cursor to endCol |
| Sketch.RestoreFrameKeepsConsistent | sketch.js:131-146 | copying the original's columns [startCol, end) back, with the block reaching the old cursor, carries the invariant from the old cursor to startCol |
| Sketch.Engine.Valid | sketch.js:63-180 | the two buffers are distinct and `Consistent` holds at the current cursor; every operation of the engine keeps it |
| Sketch.Engine.constructor | sketch.js:63-86 | setup leaves the display a copy of the original, cursor 0, not hovering, the draw loop stopped, and the invariant established |
| Sketch.Engine.StartSort | sketch.js:157-175 | hover-start leaves hovering, cursor 0, the loop running and the display identical to the original, whatever the state before; so calling it again gives the same state; the original is untouched |
| Sketch.Engine.StartReset | sketch.js:177-180 | hover-end clears the hover flag and resumes the loop; cursor and both buffers are unchanged |
| Sketch.Engine.Tick | sketch.js:89-154 | see the list below the table |
| Sketch.Run | sketch.js:89-154 | n frames with the hover state held keep the invariant and leave the cursor at `CursorAfter(cursor, hovering, W, n)` |
| Sketch.LeaveAndRestore | sketch.js:129-149 | after hover-end and ⌈cursor / 4⌉ frames the cursor is 0 and the display is byte-identical to the original |
| Sketch.HoverUntilSorted | sketch.js:90-128 | after hover-start and ⌈W / 4⌉ frames the cursor is W and every display column is brightness-ascending and fully opaque |

`Sketch.Engine.Tick` states all of the following:
- The invariant is kept.
- The cursor becomes `NextCursor` of the old cursor, and the hover flag is
  unchanged.
- The frame stops the loop exactly at the matching edge. There it changes
  nothing.
- A sorting frame makes the columns it covers sorted and opaque. It writes
  no other byte.
- A restoring frame makes the columns [startCol, min(startCol + 4, W))
  byte-identical to the original. It writes no other byte.
- The original buffer is untouched.

## Left out

- Image loading and the resize of images wider than 800 pixels in
  `p.preload` (sketch.js:42-49): asynchronous library I/O. The engine is
  given the loaded buffer and its size.
- Canvas creation, `pixelDensity`, and the wiring of `mouseOver`/`mouseOut`
  to the handlers (sketch.js:52-60): DOM set-up. The handlers are the plain
  methods `StartSort` and `StartReset`.
- The `load` listener that builds four p5 instances (sketch.js:188-202):
  the instances share no state, so one `Engine` models each of them.
- Rendering: `p.image`, `loadPixels`, `updatePixels` (sketch.js:66-67, 83,
  124, 153). The model treats `displayImg.pixels` and the image p5 draws as
  one buffer. Whether p5's `copy` also refreshes the `pixels` array, which
  the sorting frames write and `updatePixels` flushes, is library behaviour
  the model does not capture.
- `p.loop`/`p.noLoop` scheduling: kept only as the `looping` flag and the
  `stopped` result of `Tick`. p5's own extra call of `draw` after `setup` is
  not modelled.
- The floating-point internals of `p.brightness`: replaced by the integer
  key `max(r, g, b)`, which orders pixels the same way.
- SortByBrightness: not promised stable. The source's sort is stable
  (`Array.prototype.sort` keeps equally bright pixels in their top-to-bottom
  order), so its column is fully determined. The contracts deliberately
  require only a sorted permutation. `SortedColumnBrightnessUnique` shows
  that the brightness at every row is determined anyway.
- p5 `copy`'s scaling and smoothing: the copy is modelled as an exact
  same-size block copy, clipped at the right edge.
