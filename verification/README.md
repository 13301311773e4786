# Room planner core in Dafny

This project models the logic of a grid-based interior-design game. The player places catalog
furniture on a 10x8 room grid, rotates and removes it, and scrolls the item list at the bottom
of the window. Pressing E asks for an evaluation: the design is described in English, embedded
by a language model, and scored 0 to 5 by cosine similarity against the embedded customer
request.

Modules, in dependency order:

- `Common` (common.dfy): `Option` and `Result`.
- `Geometry` (geometry.dfy): cells, half-open rectangles with `pygame.Rect`'s `collidepoint` and
  `colliderect` semantics, the room, the window regions and the mouse-to-cell mapping.
- `Furniture` (furniture.dfy): catalog entries (`Kind`), placed items (`Placement`),
  `get_rotated_size`, the one-row floor strip and `check_collision`.
- `Registry` (registry.dfy): the list of placed items, its validity invariant, and the
  left-click append and right-click removal.
- `DepthSort` (depth_sort.dfy): the stable (row, column) sort of the render list.
- `Describe` (describe.dfy): `describe_design`, the first-seen name tally and the sentence
  built from it.
- `Similarity` (similarity.dfy): `calculate_similarity_score` over real vectors. The square root
  is a function parameter `root`.
- `Evaluate` (evaluate.dfy): `evaluate_design` with the embedding model as a parameter `embed`.
- `Session` (session.dfy): the loop's state, one input event (`Step`), one frame of events
  (`Frame`), the bottom-list buttons, the render list, and the loop as written with its stale
  placeability flag (`FrameAsWritten`).

The central invariant is `Registry.Valid`: every floor strip lies in the room and no two strips
overlap. `Session.Frame` keeps `Session.Inv`, which includes it, so every list of placed items a
session reaches through the corrected frame is valid.

The model follows the code as written; in particular:

- `GRID_SIZE` is 64, so the room area is 640x512 pixels and the window is 940 pixels wide.
  Here the comments disagree with the code: they say 600, 480 and 900. The model follows the
  code, and the scroll bound uses 940.
- The out-of-bounds test uses the one-row floor strip (`Rect(x, y, w_rot, 1)`), not the item's
  full drawn height.
- Right-click removal sorts with `sorted(..., reverse=True)`, which is stable. Among entries with
  equal anchors the earliest one is tried first, not the most recent. `list.remove(f)` then
  removes the first entry equal to `f`, which is that same entry.
- A dimension mismatch between the request and design vectors makes `np.dot` raise, and
  nothing catches it. The model returns `Err(DimensionMismatch)` and the frame fails with it.
- The source has no door cell, zones or density tiers, so none are modelled.

## Model

| member | source | states |
|---|---|---|
| Geometry.CollideIffSharedPoint | main_v2.py:110 | `colliderect` on half-open rectangles holds exactly when some cell lies in both |
| Geometry.InRoomIffCellsInRoom | main_v2.py:103-104 | the four-edge bounds test passes exactly when every covered cell is a room cell |
| Geometry.CursorCell | main_v2.py:154-155 | the mouse cell is the pixel position floor-divided by 64; a pixel in the room area maps to a room cell |
| Geometry.RegionsDisjoint | main_v2.py:143-145 | the room area and the bottom list never both contain the mouse |
| Furniture.RotatedSize | main_v2.py:80-85 | the rotated size keeps the area and is either the base size or the base size swapped |
| Furniture.RotatedSizeSwapsIffOdd | main_v2.py:80-85 | width and height swap exactly for odd rotations (or square items); swapping twice gives the base size |
| Furniture.Strip | main_v2.py:100-101 | the candidate strip covers exactly the anchor row, columns [x, x + rotated width) |
| Furniture.OverlapsAny | main_v2.py:107-111 | the scan finds a collision exactly when some placed strip collides with the candidate |
| Furniture.CheckCollision | main_v2.py:98-113 | blocked exactly when a strip cell lies outside the room or the strip collides with a placed strip |
| Furniture.BoundaryTest | main_v2.py:101-105 | out of bounds exactly when x < 0, y < 0, x + rotated width > 10 or y + 1 > 8 |
| Furniture.RightWallEdge | main_v2.py:101-105 | a strip ending at the right wall is accepted; one cell further right is rejected |
| Furniture.StripsCollideIff | main_v2.py:99-111 | two strips collide exactly when they share the row and their column intervals intersect |
| Furniture.DifferentRowsNeverCollide | main_v2.py:101-110 | items anchored in different rows never collide, however tall they are drawn |
| Furniture.EdgeAdjacentNeverCollide | main_v2.py:109-110 | a strip ending where another begins collides with it in neither direction |
| Furniture.SameAnchorAlwaysCollides | main_v2.py:107-111 | an item already in the list is never placeable again at its own anchor and rotation |
| Registry.PlaceableIffStaysValid | main_v2.py:160-167 | on a valid list, `check_collision` is false exactly when appending keeps the list valid |
| Registry.Place | main_v2.py:224-230 | appends exactly one entry (item, cell, rotation) when placeable; otherwise the list is unchanged; validity is kept |
| Registry.Victim | main_v2.py:234-242 | none exactly when no strip holds the cell; otherwise a hit entry that comes first in stable descending (row, column) order |
| Registry.Without | main_v2.py:241 | removing one entry keeps all others in their relative order |
| Registry.WithoutKeepsValid | main_v2.py:241 | removing any entry keeps a valid list valid |
| Registry.RemoveAt | main_v2.py:232-242 | no change when nothing is hit; otherwise exactly the victim is removed; the multiset only shrinks; validity is kept |
| Registry.AtMostOneHit | main_v2.py:236-242 | in a valid list at most one strip contains a given cell |
| Registry.RemoveAtValidRemovesOccupant | main_v2.py:232-242 | in a valid list a right click removes exactly the item occupying the cell |
| Registry.RemoveUndoesPlace | main_v2.py:224-242 | right-clicking the anchor of an item just placed gives back the previous list |
| DepthSort.InsertStable | main_v2.py:274 | inserting keeps every same-anchor subsequence and puts the new entry last among its equals |
| DepthSort.Sort | main_v2.py:274 | the render order is sorted by (row, column), a permutation of its input, and stable on equal anchors |
| Describe.Names | evaluation.py:16-17 | the tally reads the items' names in list order and nothing else |
| Describe.Occurrences | evaluation.py:18 | a name's count is positive exactly when it occurs |
| Describe.Tally | evaluation.py:15-18 | the tally has each name once, counts equal to occurrences, names in first-seen order and counts summing to the list length |
| Describe.Decimal | evaluation.py:21 | `str(count)` is a non-empty digit string with no leading zero |
| Describe.DecimalRoundTrip | evaluation.py:21 | the digit string reads back as the count |
| Describe.EntryRoundTrip | evaluation.py:21 | each "count name" entry reads back as its count and name |
| Describe.Listing | evaluation.py:20-23 | a non-empty listing starts with "This design contains: ", ends with "." and differs from the empty-room sentence |
| Describe.DescribeDesign | evaluation.py:8-26 | the description is the empty-room sentence exactly when nothing is placed |
| Describe.TallyUniform | evaluation.py:15-21 | a list of one repeated name tallies to one entry counting the whole list |
| Describe.ListingSingle | evaluation.py:20-23 | a one-entry listing is the lead, the count, a space, the name and a period |
| Describe.DescribeSingleKind | evaluation.py:12-23 | a room of one kind of item is described by one entry counting all of them |
| Describe.DescribeIgnoresPosition | evaluation.py:16-18 | the description depends only on the names, not on positions or rotations |
| Similarity.SumSquares | evaluation.py:41-42 | the squared norm is never negative |
| Similarity.ScoreFromCosine | evaluation.py:48 | the affine map sends [-1, 1] into [0, 5], -1 to 0 and 1 to 5, and is inverted by s*2/5 - 1 |
| Similarity.ScoreMonotone | evaluation.py:48 | the map is monotone, strictly so |
| Similarity.ScoreOfCosine | evaluation.py:46-48 | with both vectors non-empty, of equal length and of non-zero norm, the score is the affine map of dot / (norm_a * norm_b) |
| Similarity.Score | evaluation.py:30-49 | 0.0 for an empty vector or a zero norm; an error exactly when both are non-empty with non-zero norms and different lengths |
| Similarity.SumSquaresZeroIffAllZero | evaluation.py:41-43 | the squared norm is zero exactly when every component is zero |
| Similarity.ZeroNormIffAllZero | evaluation.py:41-44 | with an exact root, the norm is zero exactly when every component is zero |
| Similarity.ZeroVectorScoresZero | evaluation.py:43-44 | an all-zero vector scores 0.0 against anything, in either argument position |
| Similarity.DotSymmetric | evaluation.py:46 | the dot product is symmetric |
| Similarity.ScoreSymmetric | evaluation.py:30-49 | the score does not depend on argument order |
| Similarity.DotBetweenNorms | evaluation.py:46 | Cauchy-Schwarz: the dot product lies between minus and plus the product of the norms |
| Similarity.ScoreInRange | evaluation.py:46-48 | with an exact root every successful score lies in [0, 5] |
| Similarity.SelfScoreIsFive | evaluation.py:46-48 | a non-zero vector compared with itself scores 5 |
| Evaluate.DescriptionNeverFailed | evaluation.py:73-75 | no description equals the failure text |
| Evaluate.EvaluateDesign | evaluation.py:53-87 | the failure record exactly when the embedding is empty; otherwise the description and the request-versus-design score, or the score's error |
| Evaluate.EmptyRoomEvaluation | evaluation.py:68-83 | an empty room, when its sentence can be embedded, is reported with the empty-room sentence |
| Evaluate.ZeroDesignVectorScoresZero | evaluation.py:71-83 | an all-zero design embedding gives score 0.0 with the real description |
| Evaluate.EvaluationInRange | evaluation.py:78-83 | with an exact root every successful evaluation scores in [0, 5] |
| Evaluate.EvaluationIgnoresPosition | evaluation.py:68 | rooms with the same names in the same order evaluate identically |
| Session.Toggle | main_v2.py:191 | the rotation after R is 0 or 1 and of the other parity |
| Session.ToggleTwice | main_v2.py:191 | R twice restores the rotation; each press swaps the footprint |
| Session.ScrollMax | main_v2.py:183-184 | the scroll range is 0 exactly for at most 10 items; otherwise the columns' width beyond 940 |
| Session.Clamp | main_v2.py:186 | the offset ends in [-max, 0]; an offset inside is kept; one outside goes to the nearer end |
| Session.ClampNearest | main_v2.py:186 | clamping is idempotent and picks the in-range offset nearest the raw one |
| Session.Layout | main_v2.py:339-356 | buttons only for shown items, in catalog order, each at its layout rectangle |
| Session.LayoutCovers | main_v2.py:352-356 | every shown item has a button |
| Session.ButtonsDisjoint | main_v2.py:345-355 | two items' button rectangles never share a pixel |
| Session.ButtonsInBottomRows | main_v2.py:346-355 | every button lies within the rows of the bottom panel |
| Session.ButtonAt | main_v2.py:218-222 | none exactly when no button holds the point; otherwise the first button that holds it |
| Session.ButtonAtLayout | main_v2.py:218-222 | on a laid-out list a click selects exactly the item whose button holds the point |
| Session.InitialInv | main_v2.py:132-138 | the initial state satisfies the session invariant |
| Session.Evaluated | main_v2.py:193-211 | E fails exactly when the evaluation fails; otherwise only the report changes, to the evaluation and its feedback |
| Session.Select | main_v2.py:217-222 | a list click on a button selects its item with rotation 0; elsewhere nothing changes |
| Session.Step | main_v2.py:170-242 | only E can fail; the wheel over the list scrolls by the clamped step and elsewhere does nothing; R toggles the rotation; E stores the evaluation and its feedback (`Evaluated`); a list click selects the hit button's item unrotated, or nothing when no button is hit (`Select`); a room click places by `check_collision`; a right click in the room removes the victim; ignored events, other keys and buttons, and clicks outside their regions change nothing; the invariant is kept |
| Session.Events | main_v2.py:170-242 | the events of a frame keep the invariant and never change the selection while the mouse is over the room |
| Session.Frame | main_v2.py:150-242 | a frame keeps the invariant, so every placed list stays valid, and lays the buttons out at the final scroll |
| Session.RotateTwiceRestores | main_v2.py:189-191 | R twice in a frame leaves the state as it was |
| Session.PlaceThenRemoveRestores | main_v2.py:224-242 | a placing click and a right click on the same cell restore the state |
| Session.StepAsWritten | main_v2.py:224-230 | a room click appends the frame's item at the current rotation when the frame's flag is set; every other event, left clicks outside the room included, acts as in `Step` |
| Session.FrameAsWritten | main_v2.py:157-167 | the loop as written keeps catalog indices in range and lays the buttons out |
| Session.DoubleClickPlacesTwice | main_v2.py:157-230 | two clicks in a frame place the item twice, overlapping, where re-checking places it once |
| Session.RotateThenClickPlacesBlocked | main_v2.py:157-230 | R then a click places a rotated item that does not fit, where re-checking places nothing |
| Session.StaleFlagWitnesses | main_v2.py:160-167 | both situations occur from the initial state with a one-item catalog |
| Session.PreviewUsesFrameItem | main_v2.py:157-272 | while the mouse is over the room the preview drawn after the events shows the item selected before them, at the current rotation |
| Session.Ghost | main_v2.py:266-272 | the preview is present exactly when the mouse is over the room |
| Session.RenderList | main_v2.py:265-274 | the render list is sorted, stable, and a permutation of the placed items plus at most one preview |

## Left out

- Drawing, fonts, images, `get_rotated_image` (main_v2.py:87-96), `draw_text_multiline`
  (main_v2.py:116-129) and the preview tint are presentation. Only the render order and the
  button rectangles are modelled.
- The embedding model and the feedback writer are function parameters (`embed`,
  `Services.feedback`). model.py and the `client` module are not part of this model.
- The catalog is a parameter. The `furnitures` module is not part of this model. The loop's
  exit on an empty catalog (main_v2.py:46-49) appears only as the `|catalog| > 0` requirement
  of `Session.InitialInv`.
- Startup (main_v2.py:65-77) is left out: creating the model client, generating the request, and
  the fallback to a 128-entry test vector. The request text and its embedding are parameters.
  The crash when E is pressed without a model client is not modelled.
- Catalog sizes are at least one cell (`Geometry.Extent`), so pygame's handling of zero-width or
  zero-height rectangles is not modelled; every catalog item occupies at least one cell.
- main.py is an earlier prototype of the same loop and is not modelled.
- The quit event ends the process and is not an `Event`.
- Similarity.Score: real arithmetic, not IEEE doubles. The square root is the parameter `root`,
  and range results assume it is exact (`RootAt`). Rounding is not modelled.
- Evaluate.EvaluateDesign: a pure function, so "the description is embedded once" is not
  stated. The debug prints are left out.
- Session.Step: the mouse position is one value per frame, as the loop reads it. Wheel events
  carry only the vertical amount the loop reads.
- Session.FrameAsWritten: states only that indices stay in range. The lemmas
  `Session.DoubleClickPlacesTwice` and `Session.RotateThenClickPlacesBlocked` show that it does
  not keep validity.

## Findings

| source | as written | input that shows it | evidently intended | confidence | as-written member | corrected member |
|---|---|---|---|---|---|---|
| main_v2.py:157-230 | `is_placeable` and `current_item` are computed once per frame, before the events are read, and every left click of the frame appends when the flag is set | two left clicks in one frame on a free cell, e.g. a 2x1 bed at pixel (10, 10) of an empty room: the bed is appended twice on the same cell | each click re-checks `check_collision` against the list as it is at that click | not executed; needs two clicks within one frame | Session.DoubleClickPlacesTwice | Session.Frame |
| main_v2.py:157-230 | the flag is computed for the rotation before the events, but the append uses the rotation after an R press in the same frame | R then a left click in one frame with a 1x2 desk at column 9 of an empty room: the desk is appended rotated, two cells wide, across the right wall | the click checks the rotation it places | not executed; needs R and a click within one frame | Session.RotateThenClickPlacesBlocked | Session.Frame |
