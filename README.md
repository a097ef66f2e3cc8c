# Metaball reveal and all-time ranking — a Dafny model

This project models the two pieces of logic in a fan site's single page.

**The cursor-reactive metaball reveal component** (`MetaballsCursor`). It is written for the hero section. In this snapshot of the repository no page mounts it: the hero reveals its second image with a circular clip path instead, and no element carries the id the component writes its mask to. The component keeps the following state:
- a main blob that follows the pointer;
- five orbiting blobs circling the main blob;
- an animation clock;
- a canvas.

Each animation frame does these things, in order:
- advances the clock by 0.016;
- moves the blobs by linear interpolation toward their goals and gives them new radii;
- redraws the canvas;
- exports the canvas image as the mask of a reveal layer, if such a layer exists;
- requests the next frame.

Redrawing works like this:
1. The canvas is cleared.
2. If the pointer is not over the hero, drawing stops there. The frame still exports the cleared canvas and requests the next frame.
3. Otherwise the blobs' radial gradients are painted on a scratch canvas.
4. The scratch canvas's RGBA bytes go through the metaball threshold. A pixel whose alpha is above 180 becomes opaque white. Any other pixel keeps its colour bytes and gets alpha 0.
5. The result is put on the canvas.

**The footer's ranking table** (`StatsFooter`). A fixed table of ten players is shown sorted by points, most first. Each row shows its position in the sorted table (index + 1), not the stored `rank` field. The one record flagged `highlighted` is styled as such, and the row under the pointer carries a hover style.

Files and modules:

- `threshold.dfy`, module `MetaballThreshold`, covers two things:
  - the pixel-level threshold: a function `ThresholdPass` and its properties;
  - the in-place threshold loop, `ApplyThreshold` over an `array`, proved equal to `ThresholdPass`.
- `blobs.dfy`, module `Blobs`, covers:
  - the blob records;
  - linear interpolation and its convergence;
  - the radius formulas and their bands;
  - the single-frame step of each blob;
  - the creation loop.
- `metaballs_cursor.dfy`, module `MetaballsCursor`, holds the component itself:
  - the canvas as a class with its clear and put-image operations;
  - the frame's mask and `DrawMetaballs`;
  - the component's mutable refs as the class `Field`, whose methods are the mount effect, the pointer handler and one animation frame.
- `stats_footer.dfy`, module `StatsFooter`, covers:
  - the table;
  - a stable insertion sort by points;
  - the proof that every descending rearrangement of the table is the same sequence, namely the display order;
  - the displayed rows;
  - the hover state.

Modelling choices:

- Numbers are mathematical reals, not IEEE doubles.
- `Math.sin` and `Math.cos` are function-typed parameters (`Wave`). Only the properties a lemma needs are assumed of them, as preconditions:
  - `UnitBounded`, meaning values lie in [-1, 1], for the radius bands;
  - `Pythagorean`, for the orbit distance.
- The fifteen `Math.random()` draws of the mount effect are a parameter sequence, with every value in [0, 1). Each blob consumes three draws, in the order the object literal evaluates them: radius, then speed, then orbit radius.
- Pixel bytes are `Byte`, the integers 0..255. This is the clamped byte array that `getImageData` returns.
- The buffer a canvas holds always has a length that is a multiple of 4. The pass is nevertheless defined on any length.
  - The source's loop steps `i` by 4 while `i < length`.
  - On a trailing incomplete pixel it would read an alpha byte past the end, which is `undefined`, so `undefined > 180` is false.
  - The else branch then writes past the end of a typed array, and that write is ignored.
  - So the model leaves such a tail unchanged (`ThresholdPassTail`).
- The painted scratch image (`painted`) is a parameter of `DrawMetaballs` and `Field.Animate`. Whether the scratch canvas has a 2-D context (`scratchContext`) is a parameter too.
- The footer's sort runs on a spread copy of the table, so the model's table `RankingData` is an immutable value. `SortByPoints` is a stable sort: records with equal points keep their stored order, as `Array.prototype.sort` guarantees. Because the ten point totals are distinct, `DescendingRearrangementUnique` shows that any correct sort yields the same order. The display facts are therefore proved for every `SortedCopy`, of which `SortedData()` is one.

Behaviour of the code worth stating plainly:

- The threshold comparison is strict (`alpha > 180`), so a pixel with alpha exactly 180 becomes transparent.
- Pixels at or below the threshold keep their red, green and blue bytes; only the alpha byte is zeroed (`AtOrBelowThresholdBecomesTransparent`).
- No compositing operation is set, so overlapping gradients are drawn with the default source-over mode. Gradient painting is not modelled.
- On a canvas of zero width or height while hovering, reading the scratch canvas's image data throws. The exception ends the frame after the clear, before the mask export and before the next frame is requested, so the animation stops (`DrawMetaballs`, `Field.Animate`).
- Marner (652 points, stored rank 7) is displayed at position 5. Ellis (640, stored rank 5) is displayed 6th and Matthews (634, stored rank 6) 7th.

## Model

| member | source | states |
|---|---|---|
| MetaballThreshold.ThresholdPixel | src/components/MetaballsCursor.tsx:120-128 | one thresholded pixel has four bytes and its alpha is 0 or 255 |
| MetaballThreshold.ThresholdPass | src/components/MetaballsCursor.tsx:119-129 | the pass keeps the buffer's length |
| MetaballThreshold.ThresholdPassPixel | src/components/MetaballsCursor.tsx:119-129 | locality: pixel p of the result is the threshold of pixel p of the input alone |
| MetaballThreshold.ThresholdPassTail | src/components/MetaballsCursor.tsx:119-120 | the bytes of a trailing incomplete pixel are left unchanged |
| MetaballThreshold.AlphaIsBinary | src/components/MetaballsCursor.tsx:119-129 | after the pass every complete pixel's alpha byte is 0 or 255 |
| MetaballThreshold.AboveThresholdBecomesWhite | src/components/MetaballsCursor.tsx:117-125 | a pixel with alpha > 180 becomes exactly (255, 255, 255, 255) |
| MetaballThreshold.AtOrBelowThresholdBecomesTransparent | src/components/MetaballsCursor.tsx:121-127 | a pixel with alpha <= 180, 180 included, keeps R, G, B and gets alpha 0 |
| MetaballThreshold.ThresholdPixelIdempotent | src/components/MetaballsCursor.tsx:120-128 | thresholding a pixel twice equals thresholding it once |
| MetaballThreshold.ThresholdPassIdempotent | src/components/MetaballsCursor.tsx:119-129 | the pass applied twice gives the same buffer as applied once |
| MetaballThreshold.ThresholdPassTransparent | src/components/MetaballsCursor.tsx:126-127 | an all-zero buffer is a fixed point of the pass |
| MetaballThreshold.AlphaAllBinary | src/components/MetaballsCursor.tsx:119-129 | after the pass the alpha of every complete pixel is 0 or 255, for all pixels at once |
| MetaballThreshold.Transparent | src/components/MetaballsCursor.tsx:82 | the cleared buffer has the given length and every byte is 0 |
| MetaballThreshold.ApplyThreshold | src/components/MetaballsCursor.tsx:115-129 | the in-place loop leaves the array equal to the pass applied to its old contents |
| MetaballThreshold.ThresholdPixelInPlace | src/components/MetaballsCursor.tsx:120-128 | one loop body changes exactly the four bytes of pixel i, into their threshold |
| MetaballsCursor.Canvas.constructor | src/components/MetaballsCursor.tsx:71-74 | a canvas given a size holds that many transparent black pixels |
| MetaballsCursor.Canvas.ClearRect | src/components/MetaballsCursor.tsx:82 | after the clear every byte of the canvas is 0 |
| MetaballsCursor.Canvas.PutImageData | src/components/MetaballsCursor.tsx:131 | the canvas bytes become exactly the image's bytes |
| MetaballsCursor.FrameMask | src/components/MetaballsCursor.tsx:81-131 | the frame's mask has the canvas's size, and every complete pixel of it is fully transparent or fully opaque |
| MetaballsCursor.NotHoveringClears | src/components/MetaballsCursor.tsx:82-84 | when not hovering the canvas is all zero, and nothing painted affects it |
| MetaballsCursor.DrawMetaballs | src/components/MetaballsCursor.tsx:81-132 | the canvas ends fully transparent when not hovering or without a scratch context, and otherwise holds the thresholded painted image; drawing completes unless hovering with a scratch context on a zero-size canvas, where reading the image data throws |
| Blobs.Lerp | src/components/MetaballsCursor.tsx:79 | one lerp step leaves the fraction 1 - t of the gap to the target; t = 0 stays, t = 1 lands on the target |
| Blobs.LerpBetween | src/components/MetaballsCursor.tsx:79 | for t in [0, 1] the lerp result lies between its end points |
| Blobs.FollowGap | src/components/MetaballsCursor.tsx:139-140 | after n frames toward a fixed target the gap is (1 - t)^n times the first gap |
| Blobs.MainRadius | src/components/MetaballsCursor.tsx:143 | with sin bounded in [-1, 1] the main radius lies in [75, 125] |
| Blobs.OrbitingRadius | src/components/MetaballsCursor.tsx:164 | blob i's radius lies in [18 + 5i, 42 + 5i], so it is at least 18 |
| Blobs.DynamicOrbitRadius | src/components/MetaballsCursor.tsx:150 | the frame's orbit radius lies within 20 of the blob's fixed orbit radius |
| Blobs.StepMain | src/components/MetaballsCursor.tsx:139-143 | the main blob covers 10% of the gap to the target on each axis, and its radius is in [75, 125] |
| Blobs.StepOrbiting | src/components/MetaballsCursor.tsx:146-165 | a frame keeps phase, speed and orbit radius; it covers 8% of the gap to the wobbled orbit goal; its radius stays in its band |
| Blobs.OrbitAngle | src/components/MetaballsCursor.tsx:147 | at time 0 a blob's angle is its creation phase |
| Blobs.OrbitAngleAdvance | src/components/MetaballsCursor.tsx:147 | the angle advances by the blob's speed per unit of clock time |
| Blobs.OrbitPoint | src/components/MetaballsCursor.tsx:150-154 | on each axis the orbit point is within this frame's orbit radius of the main blob |
| Blobs.OrbitGoal | src/components/MetaballsCursor.tsx:153-161 | on each axis the goal is within the orbit radius plus 15 of the main blob |
| Blobs.OrbitPointDistance | src/components/MetaballsCursor.tsx:147-154 | the orbit point is at exactly this frame's orbit radius from the main blob, given sin² + cos² = 1 |
| Blobs.BlobPhase | src/components/MetaballsCursor.tsx:33 | the five blobs start at angles in [0, 2π) |
| Blobs.BlobPhasesEvenlySpaced | src/components/MetaballsCursor.tsx:33 | consecutive blobs start a fifth of the circle apart |
| Blobs.CreatedBlob | src/components/MetaballsCursor.tsx:29-36 | a new blob starts off screen with radius in [30, 55), phase 2πi/5, speed in [0.4, 0.8) and orbit radius in [80, 120) |
| Blobs.CreateOrbitingBlobs | src/components/MetaballsCursor.tsx:26-38 | the loop creates exactly five blobs, blob i from draws 3i, 3i+1 and 3i+2 |
| MetaballsCursor.Field.constructor | src/components/MetaballsCursor.tsx:19-23 | at first render the target and main blob are at (-200, -200), the main radius is 100, there are no orbiting blobs and the clock is 0 |
| MetaballsCursor.Field.InitializeOrbitingBlobs | src/components/MetaballsCursor.tsx:26-39 | the mount effect stores the five created blobs and changes nothing else |
| MetaballsCursor.Field.HandleMouseMove | src/components/MetaballsCursor.tsx:42-49 | the target becomes the pointer relative to the container's corner, or stays when there is no container |
| MetaballsCursor.Field.Animate | src/components/MetaballsCursor.tsx:134-167 | see below |
| StatsFooter.SortByPoints | src/components/StatsFooter.tsx:56 | the result is a rearrangement of the input in which points never increase |
| StatsFooter.SortedData | src/components/StatsFooter.tsx:56 | `sortedData` has the same records as `rankingData`, in descending order of points |
| StatsFooter.DescendingRearrangementUnique | src/components/StatsFooter.tsx:56 | a strictly descending sequence equals every descending rearrangement of it |
| StatsFooter.DisplayOrderRearranges | src/components/StatsFooter.tsx:15-26 | the display order is a rearrangement of the stored table |
| StatsFooter.DisplayOrderStrictlyDescending | src/components/StatsFooter.tsx:15-26 | in the display order each player has strictly fewer points than every player above it |
| StatsFooter.SortedCopyOrder | src/components/StatsFooter.tsx:56 | every sorted copy of the table is the display order, and that differs from the stored order |
| StatsFooter.SortedDataOrder | src/components/StatsFooter.tsx:56 | `sortedData` is the display order |
| StatsFooter.SortKeepsHighlighted | src/components/StatsFooter.tsx:56 | sorting keeps the number of highlighted records |
| StatsFooter.Rows | src/components/StatsFooter.tsx:112-131 | there is one displayed row per sorted record |
| StatsFooter.RowsKeepHighlighted | src/components/StatsFooter.tsx:121-123 | there are as many highlighted rows as highlighted records |
| StatsFooter.StyledExactlyAt | src/components/StatsFooter.tsx:119-123 | when exactly row h carries a style (highlighted or hovered), one row carries it if h is in the table and none otherwise |
| StatsFooter.RowsHovered | src/components/StatsFooter.tsx:119-123 | exactly one row carries the hover style when the hovered index is in the table, and none otherwise |
| StatsFooter.DisplayOrderEntries | src/components/StatsFooter.tsx:15-26 | see below |
| StatsFooter.DisplayedPositions | src/components/StatsFooter.tsx:112-131 | see below |
| StatsFooter.RowsHighlightedAt | src/components/StatsFooter.tsx:121-123 | if exactly record h is highlighted, exactly row h is styled highlighted |
| StatsFooter.DisplayedHighlight | src/components/StatsFooter.tsx:121-145 | exactly one displayed row is highlighted: row index 4, which is Marner's |
| StatsFooter.HoverStep | src/components/StatsFooter.tsx:119-120 | `hoveredRow` becomes the row index on mouse enter and `null` exactly on mouse leave |
| StatsFooter.HoverAfterLastEvent | src/components/StatsFooter.tsx:119-120 | `hoveredRow` is null exactly when no event has happened or the last one was a leave; a hovered index is one an event entered |

Details of the longer contracts:

- `Field.Animate` states what one frame does:
  - the clock grows by 0.016 and the target is not changed;
  - the main blob takes its one-frame step;
  - every orbiting blob takes its own step around the new main blob;
  - the blobs keep their number, phases, speeds and orbit radii, and their radii stay in their bands;
  - the canvas holds the frame's mask;
  - the next frame is requested exactly when drawing does not throw, which it does only when hovering with a scratch context on a zero-size canvas.
- `DisplayOrderEntries` states who stands where in the display order:
  - Marner (stored rank 7) is at index 4;
  - Ellis (stored rank 5) is at index 5;
  - Matthews (stored rank 6) is at index 6;
  - every other entry at index i has stored rank i + 1;
  - only index 4 is highlighted.
- `DisplayedPositions` states what the rows show for any sorted copy:
  - Marner is shown at position 5, Ellis at 6 and Matthews at 7;
  - each of them has a stored rank that differs from the position shown;
  - every other row's position equals its stored rank.

## Left out

- Radial-gradient painting of the blobs on the scratch canvas (src/components/MetaballsCursor.tsx:86-112). These are canvas library calls with floating-point colour stops. Their resulting bytes are the `painted` parameter.
- Floating-point rounding. All arithmetic is on reals, and `Math.sin`/`Math.cos` are parameters.
- `Math.random` is modelled as a sequence of draws the caller supplies.
- Creation and resizing of the scratch canvas (87-90). The painted image is taken to have the visible canvas's size.
- Serialising the canvas as a data URL and writing the mask style properties (170-177), and resetting the mask when hovering stops (193-201). These are DOM writes.
- MetaballsCursor.Canvas.PutImageData: the model's canvas stores the image's bytes exactly. A real 2-D canvas may store colour premultiplied by alpha, so the red, green and blue of a pixel with alpha 0 need not survive into what is read back or serialised. Only the alpha bytes, which are what a mask uses, are exact.
- Frame scheduling with `requestAnimationFrame`/`cancelAnimationFrame`, and the effect's re-run when `isHovering` changes (179-190). The model gives one frame, `Field.Animate`, and whether that frame requests the next one (`rescheduled`). The chain of frames that follows is not modelled.
- Registering and removing the mouse-move and resize listeners (51-61, 71-77, 184-185). A freshly sized canvas is what the `Canvas` constructor gives. Resizing the canvas of a live `Field`, keeping its blobs and clock, is not modelled: `Field.canvas` is fixed.
- The early returns when the canvas, container or 2-D context is missing (64-69). Only the scratch context's absence (91) is modelled, as `scratchContext`.
- `hoveredCard` and the ecosystem link cards (StatsFooter.tsx 28-50, 54 and beyond line 160), the React `key`, the animation props and the CSS class strings. These are presentation only. The model keeps whether a row is styled highlighted and whether it is styled hovered.
- SortByPoints: stability is not stated as a separate lemma. The model's sort is stable by construction. The table's points are distinct, so the uniqueness lemma already fixes the displayed order for any sort.
- HeroSection.tsx, TheDreamSection.tsx, DynamicDuoSection.tsx and Index.tsx are not part of this model. They hold declarative markup and library-driven animation.
