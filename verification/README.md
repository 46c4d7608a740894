# Bubble-shooter board: hex lattice, collisions and the shot

A Dafny model of the board of a bubble-shooter game (`Assets/Scripts/Board.cs`).
Bubbles sit on a hexagonal lattice in the "odd-r" offset layout: cells are
addressed by `(col, row)`, row 0 is the top row, and odd rows are shifted
half a cell to the right. A fired bubble moves in a straight line. On every
pass of the shot loop the board:

1. finds the cell the bubble's position snaps to;
2. looks at that cell's six neighbours;
3. either bounces the bubble off a side wall, or sticks it into its own cell
   when it touches the ceiling or a bubble already on the board.

Modules, one per file:

| module | file | what it holds |
|---|---|---|
| `RealMath` | realmath.dfy | `Mathf.Round` (nearest, ties to even), `Abs`, the low bit `(int)v & 1` |
| `Vectors` | vectors.dfy | `Vector2` arithmetic, squared distance, `Vector2.Reflect` |
| `BoardConfig` | config.dfy | the inspector fields, `hexagonSize`, the collide distance |
| `HexCoordinates` | hexcoords.dfy | local, axial, cube and grid coordinates and the transforms between them |
| `Neighbours` | neighbours.dfy | the two neighbour-offset tables and their geometry |
| `Options` | options.dfy | `Option` |
| `Occupancy` | occupancy.dfy | `slots`: one optional bubble per cell, in row-major order |
| `CollisionResolver` | collision.dfy | `CollisionTest` |
| `ShootSimulation` | shooting.dfy | `Start`, `Shoot`, the `canShoot` guard, the loop of `ShootImpl` |

Modelling choices:

- **Reals and √3.** Positions are exact reals. √3 is a field `sqrt3` of the
  configuration, constrained to be positive with square 3. `hexagonSize` is
  `bubbleRadius / cos 30°`, which is `bubbleRadius / (sqrt3 / 2)`.
- **Whole-number coordinates.** Grid coordinates are integers. The engine
  keeps them in float vectors that always hold whole numbers.
- **The low bit.** `(int)v & 1` is `v % 2` with Dafny's Euclidean remainder.
  `RealMath.And1IsLowBit` proves this equals the low bit of the 32-bit
  two's-complement value over the whole `int` range.
- **Distances.** `Vector2.Distance` is compared through squared distances.
  Both sides are non-negative, so the threshold test and the ordering are
  unchanged.
- **Candidate order.** `OrderBy` is a stable sort, modelled as an insertion
  sort on the squared distance. Equally near candidates keep their table order.
- **The shot loop.** The coroutine becomes a state value. `Step` is one pass
  of the loop: translate, then test for a collision. `Run` repeats `Step`
  over a sequence of time intervals. A bounce starts a nested coroutine in
  the same frame; here it is the `Bounced` phase, and the loop goes on with
  the reflected direction.
- **Overwriting a slot.** `slots[Grid2Index(grid)]` is written
  unconditionally, even if the cell already holds a bubble; the model does
  the same (`Occupancy.Place`). Because every write stores a bubble, an
  occupied cell is never emptied (`ShootSimulation.Run`).

## Model

| member | source | states |
|---|---|---|
| `RealMath.Round` | Assets/Scripts/Board.cs:85-87 | the result is an integer within 1/2 of the input; an integer input is returned unchanged; at an exact tie the even neighbour is chosen |
| `RealMath.RoundUnique` | Assets/Scripts/Board.cs:85-87 | those facts determine the result: any integer within 1/2 of `x` that is even at an exact tie is `Round(x)` |
| `RealMath.And1` | Assets/Scripts/Board.cs:127 | `(int)v & 1` is 0 or 1 and has the parity of `v` |
| `RealMath.And1IsLowBit` | Assets/Scripts/Board.cs:127 | over the 32-bit range, `And1` equals the low bit of the two's-complement representation |
| `Vectors.Dist2` | Assets/Scripts/Board.cs:171 | the squared distance is never negative |
| `Vectors.Reflect` | Assets/Scripts/Board.cs:260 | the reflection keeps the component across the normal; for a unit normal it also negates the component along the normal and keeps the length |
| `Vectors.ReflectDetermined` | Assets/Scripts/Board.cs:260 | about a unit normal, those two component clauses hold of exactly one vector, the reflection |
| `Vectors.ReflectInvolution` | Assets/Scripts/Board.cs:260 | reflecting twice about the same unit normal gives the original direction back |
| `Vectors.ReflectOffSideWall` | Assets/Scripts/Board.cs:260 | reflecting off `Vector2.right` or `Vector2.left` negates x and keeps y |
| `BoardConfig.Config.HexagonSize` | Assets/Scripts/Board.cs:52 | `hexagonSize` is positive, `hexagonSize * sqrt 3 == 2 * bubbleRadius`, and `3 hexagonSize^2 == 4 bubbleRadius^2` |
| `HexCoordinates.Cube2Hex` | Assets/Scripts/Board.cs:78-81 | on a cube coordinate whose components sum to 0, `Hex2Cube` of the result gives the cube back |
| `HexCoordinates.Hex2Cube` | Assets/Scripts/Board.cs:73-76 | the cube's components sum to 0, and `Cube2Hex` recovers the axial coordinate |
| `HexCoordinates.CubeRound` | Assets/Scripts/Board.cs:83-107 | the rounded cube sums to 0; the component recomputed from the other two is the one with the largest rounding error (x if its error is strictly largest, else y if its error beats z's, else z), the other two being their nearest integers; on a sum-zero input each component moves by at most 1; a lattice point stays where it is |
| `HexCoordinates.CubeRoundRecomputesLargestError` | Assets/Scripts/Board.cs:83-107 | on the cube (0.4, 0.3, -0.7) the rounding errors are 0.4, 0.3 and 0.3, so x is the one recomputed and the result is (1, 0, -1), not the (0, 0, 0) that recomputing z would give |
| `HexCoordinates.HexRound` | Assets/Scripts/Board.cs:109-112 | the rounded axial coordinate is whole, each component moves by at most 1, and a whole input is returned unchanged |
| `HexCoordinates.Local2Axial` | Assets/Scripts/Board.cs:114-120 | the fractional axial coordinate of a local position is the one the forward projection `Axial2Local` (the lattice layout of `Grid2Local`) maps back to that position |
| `HexCoordinates.Local2Cube` | Assets/Scripts/Board.cs:114-123 | a local position maps to a lattice cube coordinate summing to 0 |
| `HexCoordinates.Cube2Grid` | Assets/Scripts/Board.cs:125-129 | the row is the cube's z; the column is `x + floor(z / 2)`, the odd-r shift |
| `HexCoordinates.Cube2GridBijection` | Assets/Scripts/Board.cs:125-129 | `Cube2Grid` is a bijection between sum-zero cube coordinates and grid cells, with inverse `Grid2Cube` |
| `HexCoordinates.Local2Grid` | Assets/Scripts/Board.cs:131-134 | the cell a position snaps to is the one whose cube coordinate is the rounded cube of the position |
| `HexCoordinates.Grid2Local` | Assets/Scripts/Board.cs:136-142 | a cell's centre is the forward projection of the cell's whole axial coordinate `(col - (row - row&1)/2, row)` |
| `HexCoordinates.Axial2LocalInjective` | Assets/Scripts/Board.cs:114-142 | two different axial coordinates are never projected to the same position |
| `HexCoordinates.Local2AxialOfCentre` | Assets/Scripts/Board.cs:114-142 | the axial coordinate of a cell's centre is exactly the cell's whole axial coordinate, with no rounding needed |
| `HexCoordinates.SnapRoundTrip` | Assets/Scripts/Board.cs:131-142 | `Local2Grid(Grid2Local(g)) == g` for every cell, inside the board or not |
| `HexCoordinates.SnapIdempotent` | Assets/Scripts/Board.cs:131-142 | snapping a position to its cell's centre and then snapping again changes nothing |
| `HexCoordinates.Grid2Index` | Assets/Scripts/Board.cs:144-147 | the index of every valid cell lies within `bubblesPerRow * boardHeightInBubbleRows` |
| `HexCoordinates.IsGridCoordValid` | Assets/Scripts/Board.cs:149-153 | a cell inside the columns and rows has a row-major index inside `slots` |
| `HexCoordinates.IndexInRangeIsNotValidity` | Assets/Scripts/Board.cs:144-153 | the converse fails: the cell `(-1, 1)` is off the board, yet its index is in range and is the index of the last cell of row 0, which is why the range check is made on the cell and not on the index |
| `HexCoordinates.Grid2IndexInverse` | Assets/Scripts/Board.cs:144-153 | for a valid cell, the index divided by `bubblesPerRow` is the row and the remainder is the column |
| `HexCoordinates.Grid2IndexInjective` | Assets/Scripts/Board.cs:144-153 | two valid cells with the same index are the same cell |
| `Neighbours.TablesHoldSixDistinctOffsets` | Assets/Scripts/Board.cs:42-45 | each table holds six different non-zero offsets |
| `Neighbours.OffsetsFollowRowShift` | Assets/Scripts/Board.cs:42-45 | the table of a row holds exactly the two cells beside in the row and, above and below, columns -1 and 0 on an even row, 0 and +1 on an odd row |
| `Neighbours.OffsetsAreLocal` | Assets/Scripts/Board.cs:42-45 | every offset moves at most one row and one column, and a same-row offset moves exactly one column |
| `Neighbours.OffsetTablesSymmetric` | Assets/Scripts/Board.cs:42-45 | the way back from a neighbour is in the table the neighbour's own row selects |
| `Neighbours.AdjacencySymmetric` | Assets/Scripts/Board.cs:162-163 | `a` is a neighbour of `b` exactly when `b` is a neighbour of `a` |
| `Neighbours.CentreDistance2` | Assets/Scripts/Board.cs:136-142 | the squared distance between two cell centres is `4r^2 dx^2 + 3r^2 dy^2`, with `dx` the column difference in diameters (half-cell shift included) and `dy` the row difference |
| `Neighbours.NeighbourCentresTouch` | Assets/Scripts/Board.cs:42-45 | every cell the tables name lies exactly one bubble diameter from the cell, so the tables agree with the lattice geometry |
| `Occupancy.EmptySlots` | Assets/Scripts/Board.cs:50 | the new `slots` has one entry per cell, and every cell is empty |
| `Occupancy.Place` | Assets/Scripts/Board.cs:256 | after the write, the cell holds the bubble and every other cell holds what it held |
| `CollisionResolver.Gather` | Assets/Scripts/Board.cs:165-179 | the candidates are exactly the table entries within the collide distance and above the bottom, in table order |
| `CollisionResolver.Insert` | Assets/Scripts/Board.cs:181 | inserting keeps the multiset and keeps the sequence sorted by (distance, table position) |
| `CollisionResolver.OrderByDistance` | Assets/Scripts/Board.cs:181 | the stable sort is a permutation; a sequence in table order comes out sorted by distance, ties in table order |
| `CollisionResolver.Classify` | Assets/Scripts/Board.cs:185-213 | a neighbour lets the loop go on exactly when it is a cell on the board that is empty; a neighbour outside the columns is a bounce, with normal right past the left wall and left past the right wall; otherwise it is a stick with zero normal; any collision names the bubble's own cell |
| `CollisionResolver.FirstCollision` | Assets/Scripts/Board.cs:183-217 | a hit is the classification of some candidate, every earlier candidate having classified as nothing; no hit means no candidate classifies |
| `CollisionResolver.CollisionTest` | Assets/Scripts/Board.cs:155-218 | outside the board there is no hit; a hit always names the bubble's own cell; a stick has a zero normal; a bounce has normal right or left |
| `CollisionResolver.OrderedCandidates` | Assets/Scripts/Board.cs:165-181 | the sorted candidates are sorted, each is the table entry at its position, and every retained entry appears |
| `CollisionResolver.CollisionTestNearestFirst` | Assets/Scripts/Board.cs:155-218 | without reference to sorting: there is a hit exactly when the cell is valid and some neighbour qualifies, and the hit is the classification of the nearest qualifying neighbour, ties broken by table order |
| `CollisionResolver.DecidingNeighbourUnique` | Assets/Scripts/Board.cs:181-214 | at most one neighbour decides a step |
| `CollisionResolver.StickDecidedByCeilingOrBubble` | Assets/Scripts/Board.cs:183-213 | a stick is decided by a neighbour that lies between the side walls and is either above the top row or an occupied cell |
| `CollisionResolver.BelowBoardNeverDecides` | Assets/Scripts/Board.cs:173-174 | a neighbour below the last row never decides a step, even at distance 0 |
| `CollisionResolver.CollisionTestDecidedBy` | Assets/Scripts/Board.cs:155-218 | when neighbour `k` decides, `CollisionTest` is that neighbour's classification |
| `CollisionResolver.WallBounceOnlyAtEdges` | Assets/Scripts/Board.cs:185-201 | a bounce happens only in column 0, with normal right, or in the last column, with normal left |
| `CollisionResolver.NearestCandidateDecides` | Assets/Scripts/Board.cs:183-213 | when the strictly nearest candidate is a side wall there is a bounce with the inward normal; when it is the ceiling or an occupied cell, the bubble sticks in its own cell |
| `CollisionResolver.CollideDistanceBelowDiameter` | Assets/Scripts/Board.cs:36 | the collide distance `0.95 * 2r` is positive and less than a diameter |
| `CollisionResolver.NoCollisionAtCellCentre` | Assets/Scripts/Board.cs:155-218 | a bubble resting at a cell's centre touches no neighbour, so there is no collision there |
| `ShootSimulation.Start` | Assets/Scripts/Board.cs:48-52 | the board starts with every cell empty and accepts a shot |
| `ShootSimulation.Fire` | Assets/Scripts/Board.cs:67-71 | firing makes the board busy, leaves the slots alone, and puts the bubble in flight |
| `ShootSimulation.TryFire` | Assets/Scripts/Board.cs:284-296 | a click fires exactly when `canShoot` holds |
| `ShootSimulation.Advance` | Assets/Scripts/Board.cs:248 | the bubble moves along `dir` and never across it, by `bubbleShootingSpeed * deltaTime` times the length of `dir`, so exactly that distance for a unit direction |
| `ShootSimulation.Step` | Assets/Scripts/Board.cs:246-264 | the pass keeps travelling exactly when `CollisionTest` of the moved position reports nothing, sticks exactly when it reports a stick (in the reported cell), and otherwise bounces with the direction reflected about the reported normal. On a stick, the bubble moves to the centre of the cell its position snaps to; that cell holds it, every other cell is unchanged, and the board is free again. On a bounce, x of the direction is negated and the board is untouched. Otherwise the bubble has moved and nothing else changed |
| `ShootSimulation.Stick` | Assets/Scripts/Board.cs:253-257 | the stuck bubble moves to the centre of its cell, which snaps back to that cell; the cell holds it, every other cell holds what it held, and the board accepts the next shot |
| `ShootSimulation.Bounce` | Assets/Scripts/Board.cs:258-261 | a bounce off either side wall leaves the board alone and negates the x component of the direction |
| `ShootSimulation.StuckOnlyAgainstCeilingOrBubble` | Assets/Scripts/Board.cs:202-213 | when a pass ends in a stick, the deciding neighbour lies between the side walls and is either above the top row or an occupied cell |
| `ShootSimulation.Run` | Assets/Scripts/Board.cs:242-272 | the result is `Step` applied pass after pass, one interval each, until the bubble sticks or the intervals run out (the reference `Passes`); the board is busy and unchanged until the bubble sticks. After a stick, exactly one valid cell has changed and it holds the bubble. No occupied cell is ever emptied |

## Left out

- `Update` beyond its `canShoot` guard: mouse input, the camera and the fire direction's normalisation are engine I/O.
- `ReloadCanon` and `GenerateRandomBubble`: prefab instantiation and scene-graph parenting.
- `OnDrawGizmos`: debug drawing only.
- The border fields `rightBoarder` and `bottomBoarder`, and `hexagonVerticalDistance`: they are computed in `Start` but never read by the core.
- Coroutine scheduling: frame waits, and the nested coroutine a bounce starts. A bounce is a phase of the same loop, and each pass takes its time interval from the caller.
- Termination of the shot loop: it can travel for ever if nothing is hit. `Run` stops when its intervals run out.
- Float rounding: positions are exact reals. The `(float)` cast in `Grid2Local` and the float distance comparisons are taken exactly.
- `Transform.Translate` is taken as a plain translation in the board's local frame.
- `Vectors.Dist2`: does not state that a zero distance means equal points; only non-negativity is used.
- `HexCoordinates.HexRound`: does not state that the result is the nearest cell to the input; the selection rule is stated on `CubeRound`.
- `HexCoordinates.Local2Cube`: states only that the result is a lattice point; which cell a position rounds to is stated through `SnapRoundTrip` for cell centres only.
- `BoardConfig.Config.CollideDistance2`: carries no contract of its own; its bounds are `CollisionResolver.CollideDistanceBelowDiameter`.
