# Scoreboard: LCD sprite animation and score list, in Dafny

This project models the two pieces of logic in the scoreboard web page.

The main piece is the `Ludzik` component. It draws a little man on an
emulated 16×2 character LCD. Each character cell is a 5×8 glyph, and each
LCD pixel is drawn as a 4×4 block, so the canvas is 320×64. A frame counter
runs over 0..320 and wraps. From the counter, each tick computes:

- the hero's column, a linear sweep from -1 to 16 with `Math.round`;
- the hero's state: `run`, or one of eight jump phases over frames 31..54;
- the running sprite, which alternates every 20 frames;
- the draw calls: the obstacle at cell (8, 1) always, then the hero when its
  column is on the grid.

The rasteriser turns each draw call into `fillRect` blocks.

The second piece is the score list of the page. It covers the form's
validation schema, adding a record with a fresh id, the "best score"
statistic, the table's descending sort and clearing the list.

Files:

- `lcd.dfy` (module `Lcd`): the LCD geometry constants and the seven-sprite
  catalog. Each sprite also has a hand-drawn `'#'`/`'.'` picture as an
  independent reference.
- `raster.dfy` (module `Raster`): `drawSprite` and `drawDot` as lists of
  filled rectangles. It has a pixel-level account of what a drawn sprite
  paints.
- `animation.dfy` (module `Animation`): the frame counter, the hero column,
  the state, the running sprite and the scene's list of draw calls.
- `frame.dfy` (module `Frame`): one whole tick. It renders the scene into
  fills, keeps them inside the canvas and keeps the obstacle painted.
- `scoreboard.dfy` (module `Scoreboard`): the score-list functions and the
  invariants of a whole session.

Modelling choices:

- **Canvas.** The canvas is the list of `fillRect` calls in the foreground
  colour. The background clear at the start of each tick means that a pixel
  is lit after the tick exactly when one of that tick's fills covers it
  (`Raster.Painted`).
- **Bit test.** `bits & (1 << (4 - col))` is computed on `bv32` from
  JavaScript's ToInt32 bit pattern (the value modulo 2^32). For a row index
  past the end of the array, `sprite[row]` is `undefined`, and `&` treats it
  as 0.
- **Hero column.** `Math.round(x)` is `floor(x + 1/2)`. The model applies it
  to the exact fraction `(17f - 320) / 320` (`Animation.RoundHalfUp`).
  - The source computes in binary floating point, but over 0..320 this gives
    the same column. `Animation.OnlyFrame160IsATie` shows that frame 160 is
    the only frame whose exact position is halfway between two columns.
  - At frame 160 every step of the float computation is exact:
    160/320 = 0.5, then 8.5, then 7.5.
  - Every other frame is at least 1/320 of a column away from a rounding
    boundary. That is far more than the error of a few float operations.
- **Score field.** The number field holds either nothing or a number,
  written as a fraction `num / den`. The schema's `integer()` rule therefore
  has something to reject. An accepted value is stored as the integer it
  denotes, which is what `parseInt` yields for it.
- **Sort mutates state.** `scores.sort(...)` inside the table sorts the
  stored state array in place. The model treats rendering the table as an
  action that replaces the list by its sorted version (`Scoreboard.Display`).
  The session lemmas show that this is harmless:
  - ids stay distinct;
  - the statistics are unchanged;
  - the next id is unchanged.
- **Stable sort.** JavaScript's `Array.prototype.sort` is stable. The model
  is an insertion sort. It keeps records with equal scores in their original
  order (`Scoreboard.SortForDisplay`, stated through `WithScore`).

Two behaviours of the code that are easy to misread:

- **Lit columns of `0b01100`.** The mask is `1 << (4 - col)`, so glyph
  columns are counted from 0 at the most significant bit. This row value
  lights 0-based columns 1 and 2, the second and third pixels
  (`Raster.RowTwelveLightsTwoColumns`).
- **Missing canvas or context.** The effect returns before the first tick
  is ever scheduled, so no tick runs at all. The model starts at frame 0
  with a canvas present.

## Model

| member | source | states |
|---|---|---|
| Lcd.Bitmap | app/components/Ludzik.js:13-88 | every sprite has eight rows and every row value fits in five bits (below 32) |
| Raster.BitmapMatchesPicture | app/components/Ludzik.js:13-88 | each of the seven sprites lights exactly the '#' pixels of its drawn picture, row by row, leftmost pixel = most significant bit |
| Raster.MaskHitIsBinaryDigit | app/components/Ludzik.js:99-100 | for a five-bit row, `bits & (1 << (4 - col))` is non-zero iff binary digit 4 - col of the row is 1 |
| Raster.RowTwelveLightsTwoColumns | app/components/Ludzik.js:96-100 | row value 0b01100 lights glyph columns 1 and 2 and no other |
| Raster.RowRects | app/components/Ludzik.js:97-103 | the inner loop fills exactly the blocks of the lit pixels of one glyph row from the given column on |
| Raster.GlyphRects | app/components/Ludzik.js:95-104 | the outer loop fills exactly the blocks of the lit pixels of the glyph rows from the given row on |
| Raster.DrawSprite | app/components/Ludzik.js:91-105 | drawSprite fills a 4x4 block at (cellCol*20 + col*4, cellRow*32 + row*4) iff glyph pixel (col, row) is lit, nothing else; all fills are scale x scale; on a grid cell every fill is inside the 320x64 canvas |
| Raster.SpritePixelExact | app/components/Ludzik.js:91-105 | a canvas pixel is painted by drawSprite iff it lies in the target cell and the glyph pixel it belongs to is lit: no pixel outside the cell is touched |
| Raster.DrawDot | app/components/Ludzik.js:108-114 | drawDot fills one 4x4 block, the one of glyph pixel (2, 3) of the cell; it stays within the cell and, on the grid, within the canvas |
| Animation.Next | app/components/Ludzik.js:217 | the counter stays in 0..320, advances by one below 320 and wraps from 320 to 0 |
| Animation.Iterate | app/components/Ludzik.js:217-219 | repeated ticks keep the counter in 0..320 |
| Animation.IterateAdvances | app/components/Ludzik.js:217 | n ticks from f give (f + n) mod 321 |
| Animation.CycleClosure | app/components/Ludzik.js:217 | 321 ticks bring every counter value back to itself, and no smaller positive number of ticks does |
| Animation.FrameAtTick | app/components/Ludzik.js:127-128 | starting at frame 0, tick n shows frame n mod 321 |
| Animation.RoundHalfUp | app/components/Ludzik.js:141 | Math.round of n/d is the integer r with r - 1/2 <= n/d < r + 1/2 (halves round up) |
| Animation.HeroCol | app/components/Ludzik.js:140-141 | the hero column round(-1 + 17f/320) equals floor((17f - 160) / 320) |
| Animation.OnlyFrame160IsATie | app/components/Ludzik.js:140-141 | among frames 0..320 only frame 160 lies exactly halfway between two columns |
| Animation.HeroColStep | app/components/Ludzik.js:140-141 | from one frame to the next the column stays or grows by exactly one |
| Animation.HeroColMonotone | app/components/Ludzik.js:140-141 | the hero column is non-decreasing in the frame |
| Animation.HeroColSpotValues | app/components/Ludzik.js:140-141 | frame 0 gives column -1, frame 160 gives 8, frame 320 gives 16 |
| Animation.HeroColRange | app/components/Ludzik.js:140-141 | over the cycle the column is in -1..16, and on the grid (0..15) exactly for frames 10..310 |
| Animation.PhaseInRange | app/components/Ludzik.js:147-176 | inside frames 31..54 the phase is 0..7, so the switch's default branch is never taken |
| Animation.PhaseState | app/components/Ludzik.js:149-176 | phases 0..7 select jump1..jump8 in order, and any other phase falls to the default branch, run |
| Animation.StateAt | app/components/Ludzik.js:146-179 | the state is run iff the frame is below 31 or above 54; inside the window frame f is jump number (f - 31)/3 + 1 |
| Animation.StateSpotValues | app/components/Ludzik.js:146-179 | frame 30 is run, 31 is jump1, 54 is jump8, 55 is run |
| Animation.RunningSprite | app/components/Ludzik.js:182 | the running sprite is run1 exactly when frame mod 40 is below 20 and run2 otherwise |
| Animation.RunningSpriteAlternates | app/components/Ludzik.js:182 | the running sprite is constant on each 20-frame block and swaps between run1 and run2 from one block to the next |
| Animation.RunningSpriteSpotValues | app/components/Ludzik.js:182 | frames 0 and 19 use run1, 20 and 39 use run2, 40 uses run1 |
| Animation.HeroCalls | app/components/Ludzik.js:189-215 | off the grid no hero call is made; on it one or two calls, all in the hero column; two calls exactly for jump2 and jump7; the upper row is used exactly in jump2..jump7 and the lower row exactly outside jump3..jump6 |
| Animation.Scene | app/components/Ludzik.js:185-215 | every tick first draws the ground sprite at cell (8, 1), whatever the state, and issues at most two hero calls after it |
| Animation.HeroDrawnOnlyOnGrid | app/components/Ludzik.js:189-215 | hero calls are issued iff the column is in 0..15, i.e. iff the frame is in 10..310, and all of them use the hero column |
| Animation.SceneOnGrid | app/components/Ludzik.js:185-215 | every draw call of every frame addresses a cell of the 16x2 grid |
| Animation.HeroPlacement | app/components/Ludzik.js:189-215 | on the grid: run draws the running sprite in row 1; jump1 and jump8 draw jump in row 1; jump2 and jump7 draw exactly a dot in row 0 and jumpLower in row 1 in the same column; jump3..jump6 draw jump in row 0 |
| Animation.RowsByFrame | app/components/Ludzik.js:146-215 | the hero spans both rows exactly on frames 34..36 and 49..51 and is in the upper row only exactly on frames 37..48 |
| Frame.Render | app/components/Ludzik.js:91-114 | the fills of one draw call stay inside its cell and, for a grid cell, inside the canvas |
| Frame.RenderAll | app/components/Ludzik.js:185-215 | when every call addresses a grid cell, every fill of the tick lies inside the canvas |
| Frame.Step | app/components/Ludzik.js:134-219 | one tick paints only inside the canvas and leaves the counter in 0..320 |
| Frame.FrameInsideCanvas | app/components/Ludzik.js:185-215 | every fill of every frame of the cycle lies inside the 320x64 canvas |
| Frame.GroundFillsCell | app/components/Ludzik.js:57-66 | the ground sprite paints every pixel of its cell |
| Frame.ObstacleAlwaysPainted | app/components/Ludzik.js:185-186 | in every frame every pixel of the obstacle cell (8, 1) is painted |
| Frame.OffGridFrameIsObstacleOnly | app/components/Ludzik.js:185-215 | when the hero column is off the grid, the frame paints exactly the obstacle cell |
| Scoreboard.Rejections | app/page.js:13-21 | a submission breaks no rule iff the name has 3 to 50 characters and the score is present, positive and an integer |
| Scoreboard.ScoreValue | app/page.js:55 | an accepted score is stored as the integer the field denotes |
| Scoreboard.Submit | app/page.js:112-116 | a record is added iff the schema accepts the submission, and then exactly as addScore adds it; a rejection names at least one broken rule |
| Scoreboard.MaxId | app/page.js:53 | the maximum id is at least every id and is the id of some record |
| Scoreboard.NextId | app/page.js:53 | the new id is 1 for an empty list, otherwise one more than an existing id and greater than every id |
| Scoreboard.AddScore | app/page.js:51-58 | adding appends one record with the fresh id, the given name and score, at the end, and leaves the earlier records unchanged; the fresh id is 1 for an empty list and otherwise one more than the largest id |
| Scoreboard.AddKeepsIdsDistinct | app/page.js:53 | adding a record keeps ids pairwise distinct |
| Scoreboard.MaxScore | app/page.js:38 | the maximum score is at least every score and is the score of some record |
| Scoreboard.Highest | app/page.js:33-44 | the best score is the maximum score of a non-empty list and 0 for the empty list |
| Scoreboard.Insert | app/page.js:197-198 | inserting keeps the multiset of records, keeps the descending order and places the record before its ties |
| Scoreboard.SortForDisplay | app/page.js:197-198 | the table's list is a permutation of the scores, ordered by score non-increasing, and keeps records with equal scores in their original order |
| Scoreboard.PermutationKeepsHighest | app/page.js:38 | reordering the list does not change the best score |
| Scoreboard.PermutationKeepsNextId | app/page.js:53 | reordering the list does not change the next id |
| Scoreboard.PermutationKeepsIdsDistinct | app/page.js:197-198 | reordering a list with distinct ids leaves them distinct |
| Scoreboard.ClearAll | app/page.js:63-68 | a confirmed clear empties the list, so the statistics read 0 and the next id is 1; an unconfirmed one changes nothing |
| Scoreboard.Apply | app/page.js:51-68 | an accepted submission appends the record addScore builds and a rejected one changes nothing; rendering the table turns the list into a permutation of itself in descending score order; a clear empties the list only when confirmed |
| Scoreboard.SubmitKeepsWellFormed | app/page.js:51-58 | submitting the form keeps every record valid and ids positive and distinct |
| Scoreboard.DisplayKeepsWellFormed | app/page.js:197-198 | the in-place sort of the table keeps every record valid and ids positive and distinct |
| Scoreboard.ApplyKeepsWellFormed | app/page.js:51-68 | each user action keeps every record valid and ids positive and distinct |
| Scoreboard.SessionKeepsWellFormed | app/page.js:51-68 | from the empty list, any sequence of submissions, renders and clears keeps every record valid and all ids distinct |
| Scoreboard.DisplayKeepsStats | app/page.js:33-44 | rendering the table changes neither the statistics nor the next id |

## Left out

- React plumbing: `useRef`, `useState`, `useEffect`, the `setFrame` mirror of the counter, the JSX markup and all of `app/layout.js`. None of it holds logic.
- The canvas context and colours: `getContext`, `fillStyle` and the black background fill. The canvas is the list of white fills of one tick.
- The early return when the canvas or its context is missing. It stops the effect before any tick is scheduled, so it is not part of a tick.
- `requestAnimationFrame` / `cancelAnimationFrame` scheduling and teardown. This is host scheduling; `Frame.Step` is one tick and `Animation.Iterate` is repeated ticks.
- Floating point in the hero column. The model computes on exact fractions. The argument that the float result is the same is made above, not proved.
- Drawing `groundLeft` and `groundRight`. Both are modelled in the catalog (`Lcd.Bitmap`, `Raster.BitmapMatchesPicture`), but the source never draws them, so no scene uses them.
- `localStorage` loading and saving and `JSON` (de)serialisation. This is I/O; the model starts from the empty list.
- Formik and Yup internals: which error message is shown first, touched-state and resetting the form. Only the schema's declared rules are modelled, as a set of broken rules.
- The "average score" statistic. It is a floating-point division followed by `toFixed(1)`.
- `parseInt` of text in exponent notation (numbers of 1e21 and above). An accepted score is taken as the integer it denotes.
- `window.confirm`. The user's answer is the `confirmed` parameter of `Scoreboard.ClearAll`.
- Scoreboard.Rejections: the name length is counted in characters. JavaScript counts UTF-16 code units, so a name with characters outside the Basic Multilingual Plane can count longer in the source.
- Scoreboard.NextId: ids are unbounded integers. The precision limit of JavaScript numbers above 2^53 is not modelled.
