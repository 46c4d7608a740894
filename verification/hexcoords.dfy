/**
  The board's coordinate systems and the transforms between them.

  - local: a continuous position in board space; x grows to the right, y
    falls going down into the board;
  - axial `Hex(q, r)` and cube `Cube(x, y, z)` with `x + y + z == 0`: the
    pointy-top hexagonal lattice, used only to round a position to a cell;
  - grid `Grid(col, row)`: the "odd-r" offset layout, odd rows shifted half a
    cell to the right; row 0 is the top row;
  - slot index `col + row * bubblesPerRow` into the board's `slots`.

  The engine keeps grid coordinates in float vectors that always hold whole
  numbers; here they are integers, and so is the result of cube rounding.
 */
module HexCoordinates {

  import opened RealMath
  import opened Vectors
  import opened BoardConfig

  datatype Hex = Hex(q: real, r: real)
  datatype Cube = Cube(x: real, y: real, z: real)
  /** A cube coordinate after rounding: a point of the lattice. */
  datatype IntCube = IntCube(x: int, y: int, z: int)
  datatype Grid = Grid(col: int, row: int)

  function CubeSum(c: Cube): real {
    c.x + c.y + c.z
  }

  function ToCube(k: IntCube): Cube {
    Cube(k.x as real, k.y as real, k.z as real)
  }

  predicate IsInteger(v: real) {
    v.Floor as real == v
  }

  /** A cube coordinate that names a cell: whole components summing to 0. */
  predicate OnLattice(c: Cube) {
    IsInteger(c.x) && IsInteger(c.y) && IsInteger(c.z) && CubeSum(c) == 0.0
  }

  // ---------------------------------------------------------------------
  // Axial and cube coordinates
  // ---------------------------------------------------------------------

  /** `Cube2Hex` drops `y`; on a cube that sums to 0 nothing is lost, `y`
      being determined by the other two. */
  function Cube2Hex(c: Cube): (h: Hex)
    ensures CubeSum(c) == 0.0 ==> c == Cube(h.q, -h.q - h.r, h.r)
  {
    Hex(c.x, c.z)
  }

  /** `Hex2Cube` fills in `y` so that the components sum to 0, and
      `Cube2Hex` undoes it. */
  function Hex2Cube(h: Hex): (c: Cube)
    ensures CubeSum(c) == 0.0
    ensures Cube2Hex(c) == h
  {
    Cube(h.q, -h.q - h.r, h.r)
  }

  /** How far rounding moves a component. */
  function RoundingError(v: real): real {
    Abs(Round(v) as real - v)
  }

  /** `CubeRound`: round each component, then recompute the one with the
      largest rounding error from the other two (x if its error is strictly
      the largest, else y if its error beats z's, else z), so that the
      result lies on the plane `x + y + z == 0`. */
  function CubeRound(c: Cube): (k: IntCube)
    ensures k.x + k.y + k.z == 0
    // the two components that were not recomputed are the nearest integers
    ensures (k.y == Round(c.y) && k.z == Round(c.z))
         || (k.x == Round(c.x) && k.z == Round(c.z))
         || (k.x == Round(c.x) && k.y == Round(c.y))
    // only the component with the largest rounding error is recomputed
    ensures var ex, ey, ez := RoundingError(c.x), RoundingError(c.y), RoundingError(c.z);
            && (k.x != Round(c.x) ==> ex > ey && ex > ez)
            && (k.y != Round(c.y) ==> !(ex > ey && ex > ez) && ey > ez)
            && (k.z != Round(c.z) ==> !(ex > ey && ex > ez) && !(ey > ez))
    // on a cube summing to 0 every component moves by at most 1
    ensures CubeSum(c) == 0.0 ==>
              && Abs(k.x as real - c.x) <= 1.0
              && Abs(k.y as real - c.y) <= 1.0
              && Abs(k.z as real - c.z) <= 1.0
    // a lattice point is left where it is
    ensures OnLattice(c) ==> ToCube(k) == c
  {
    var rx := Round(c.x);
    var ry := Round(c.y);
    var rz := Round(c.z);
    var xDiff := RoundingError(c.x);
    var yDiff := RoundingError(c.y);
    var zDiff := RoundingError(c.z);
    if xDiff > yDiff && xDiff > zDiff then
      RecomputedWithinOne(ry, rz, c.y, c.z);
      IntCube(-ry - rz, ry, rz)
    else if yDiff > zDiff then
      RecomputedWithinOne(rx, rz, c.x, c.z);
      IntCube(rx, -rx - rz, rz)
    else
      RecomputedWithinOne(rx, ry, c.x, c.y);
      IntCube(rx, ry, -rx - ry)
  }

  /** A component recomputed from two others that are each within 1/2 of
      their targets is within 1 of the negated sum of the targets. */
  lemma RecomputedWithinOne(ra: int, rb: int, a: real, b: real)
    requires -0.5 <= ra as real - a <= 0.5 && -0.5 <= rb as real - b <= 0.5
    ensures Abs((-ra - rb) as real - (-a - b)) <= 1.0
  {
  }

  /** A point off the lattice: x has the largest rounding error (0.4 against
      0.3 and 0.3), so x is recomputed and the point goes to the cell
      `(1, 0, -1)`, not to `(0, 0, 0)`, where the three rounded components
      would have put it if the sum were ignored. */
  lemma CubeRoundRecomputesLargestError()
    ensures Round(0.4) == 0 && Round(0.3) == 0 && Round(-0.7) == -1
    ensures CubeRound(Cube(0.4, 0.3, -0.7)) == IntCube(1, 0, -1)
  {
    assert Round(0.4) == 0 && Round(0.3) == 0 && Round(-0.7) == -1;
  }

  /** `HexRound`: an axial coordinate rounded to a cell by `CubeRound`. */
  function HexRound(h: Hex): (n: Hex)
    ensures IsInteger(n.q) && IsInteger(n.r)
    ensures Abs(n.q - h.q) <= 1.0 && Abs(n.r - h.r) <= 1.0
    ensures IsInteger(h.q) && IsInteger(h.r) ==> n == h
  {
    var c := Hex2Cube(h);
    var k := CubeRound(c);
    assert IsInteger(h.q) && IsInteger(h.r) ==> OnLattice(c) by {
      if IsInteger(h.q) && IsInteger(h.r) {
        assert c.y == (-h.q.Floor - h.r.Floor) as real;
      }
    }
    Cube2Hex(ToCube(k))
  }

  // ---------------------------------------------------------------------
  // Local positions
  // ---------------------------------------------------------------------

  /** The axial coordinate of a local position, before rounding: the origin
      moved to the centre of cell (0, 0), then the pointy-top hex projection
      scaled by the circumradius. */
  function Local2Axial(c: Config, p: Vec2): (h: Hex)
    requires c.GeometryOk()
    ensures Axial2Local(c, h) == p
  {
    var hs := c.HexagonSize();
    var lx := p.x - c.bubbleRadius;
    var ly := -p.y - hs;
    var q := (lx * c.sqrt3 / 3.0 - ly / 3.0) / hs;
    var r := ly * 2.0 / 3.0 / hs;
    ProjectionInverse(hs, c.sqrt3, lx, ly);
    Hex(q, r)
  }

  /** The local position of an axial coordinate: the forward projection
      that `Local2Axial` undoes. A step of `q` is `hexagonSize * sqrt 3`
      across; a step of `r` is half that across and `1.5 * hexagonSize`
      down. */
  function Axial2Local(c: Config, h: Hex): Vec2
    requires c.GeometryOk()
  {
    var hs := c.HexagonSize();
    Vec2(hs * c.sqrt3 * (h.q + h.r / 2.0) + c.bubbleRadius, -(hs * 1.5 * h.r) - hs)
  }

  lemma ProjectionInverse(hs: real, s: real, lx: real, ly: real)
    requires hs > 0.0 && s * s == 3.0
    ensures var q := (lx * s / 3.0 - ly / 3.0) / hs;
            var r := ly * 2.0 / 3.0 / hs;
            hs * s * (q + r / 2.0) == lx && hs * 1.5 * r == ly
  {
    var q := (lx * s / 3.0 - ly / 3.0) / hs;
    var r := ly * 2.0 / 3.0 / hs;
    assert hs * q == lx * s / 3.0 - ly / 3.0;
    assert hs * r == ly * 2.0 / 3.0;
    assert hs * s * (q + r / 2.0) == s * (hs * q) + s * (hs * r) / 2.0;
    assert s * (lx * s / 3.0) == lx * (s * s) / 3.0;
  }

  /** `Local2Cube`: the cube coordinate of the cell a position lies in. */
  function Local2Cube(c: Config, p: Vec2): (k: IntCube)
    requires c.GeometryOk()
    ensures k.x + k.y + k.z == 0
  {
    CubeRound(Hex2Cube(Local2Axial(c, p)))
  }

  /** `Cube2Grid`: cube to odd-row offset. The engine writes the column as
      `x + (z - (z & 1)) / 2`; the subtraction makes the division exact, so
      the column is `x + floor(z / 2)` for negative rows as well. */
  function Cube2Grid(k: IntCube): (g: Grid)
    ensures g.row == k.z
    ensures g.col == k.x + k.z / 2
  {
    var z := k.z;
    assert (z - And1(z)) / 2 == z / 2;
    Grid(k.x + (z - And1(z)) / 2, z)
  }

  /** `Local2Grid`: the grid cell a local position snaps to, the cell whose
      cube coordinate is the rounded cube coordinate of the position. */
  function Local2Grid(c: Config, p: Vec2): (g: Grid)
    requires c.GeometryOk()
    ensures Grid2Cube(g) == Local2Cube(c, p)
  {
    var k := Local2Cube(c, p);
    LatticeCubeOfGrid(k);
    Cube2Grid(k)
  }

  /** `Grid2Local`: the centre of a cell in local space. Cells are
      `2 * bubbleRadius` apart along a row (`hexagonSize * sqrt 3`), odd rows
      are shifted by half of that, and rows are `1.5 * hexagonSize` apart. */
  function Grid2Local(c: Config, g: Grid): (p: Vec2)
    requires c.GeometryOk()
    ensures p == Axial2Local(c, Hex(AxialQ(g) as real, g.row as real))
  {
    var hs := c.HexagonSize();
    var x := hs * c.sqrt3 * (g.col as real + 0.5 * And1(g.row) as real);
    var y := hs * 3.0 / 2.0 * g.row as real;
    AxialOfColumn(g);
    Vec2(x + c.bubbleRadius, -y - hs)
  }

  /** The axial `q` plus half the row is the column shifted by half a cell
      on odd rows. */
  lemma AxialOfColumn(g: Grid)
    ensures AxialQ(g) as real + g.row as real / 2.0 == g.col as real + 0.5 * And1(g.row) as real
  {
    var par := And1(g.row);
    assert (g.row - par) % 2 == 0;
    assert ((g.row - par) / 2) as real * 2.0 == (g.row - par) as real;
  }

  /** The axial `q` of a cell: the inverse of the column formula of
      `Cube2Grid`. */
  function AxialQ(g: Grid): int {
    g.col - (g.row - And1(g.row)) / 2
  }

  /** The centre of cell `g` projects exactly onto the axial point of `g`. */
  lemma Local2AxialOfCentre(c: Config, g: Grid)
    requires c.GeometryOk()
    ensures Local2Axial(c, Grid2Local(c, g)) == Hex(AxialQ(g) as real, g.row as real)
  {
    var p := Grid2Local(c, g);
    Axial2LocalInjective(c, Local2Axial(c, p), Hex(AxialQ(g) as real, g.row as real));
  }

  /** Distinct axial coordinates are projected to distinct positions. */
  lemma Axial2LocalInjective(c: Config, a: Hex, b: Hex)
    requires c.GeometryOk()
    ensures Axial2Local(c, a) == Axial2Local(c, b) ==> a == b
  {
    var hs := c.HexagonSize();
    var k := hs * c.sqrt3;
    if Axial2Local(c, a) == Axial2Local(c, b) {
      CancelFactor(hs * 1.5, a.r, b.r);
      CancelFactor(k, a.q + a.r / 2.0, b.q + b.r / 2.0);
    }
  }

  lemma CancelFactor(k: real, u: real, v: real)
    requires k != 0.0 && k * u == k * v
    ensures u == v
  {
  }

  /** Snapping is exact on cell centres: the cell of the centre of `g` is
      `g`, for every integer pair, on the board or not. */
  lemma SnapRoundTrip(c: Config, g: Grid)
    requires c.GeometryOk()
    ensures Local2Grid(c, Grid2Local(c, g)) == g
  {
    Local2AxialOfCentre(c, g);
    var q := AxialQ(g);
    var cube := Hex2Cube(Hex(q as real, g.row as real));
    assert cube == ToCube(IntCube(q, -q - g.row, g.row));
    assert OnLattice(cube) by {
      assert IsInteger(cube.x) && IsInteger(cube.y) && IsInteger(cube.z);
    }
    assert Local2Cube(c, Grid2Local(c, g)) == IntCube(q, -q - g.row, g.row);
  }

  /** Snapping twice is snapping once: the position a bubble is moved to
      when it sticks snaps back to the same cell. */
  lemma SnapIdempotent(c: Config, p: Vec2)
    requires c.GeometryOk()
    ensures var snapped := Grid2Local(c, Local2Grid(c, p));
            Grid2Local(c, Local2Grid(c, snapped)) == snapped
  {
    SnapRoundTrip(c, Local2Grid(c, p));
  }

  /** The lattice point of a cell; `Cube2Grid` is a bijection between cubes
      summing to 0 and grid cells, with this as its inverse. */
  function Grid2Cube(g: Grid): IntCube {
    var q := AxialQ(g);
    IntCube(q, -q - g.row, g.row)
  }

  lemma LatticeCubeOfGrid(k: IntCube)
    requires k.x + k.y + k.z == 0
    ensures Grid2Cube(Cube2Grid(k)) == k
  {
    Cube2GridBijection(Grid(0, 0), k);
  }

  lemma Cube2GridBijection(g: Grid, k: IntCube)
    ensures Cube2Grid(Grid2Cube(g)) == g
    ensures k.x + k.y + k.z == 0 ==> Grid2Cube(Cube2Grid(k)) == k
  {
    assert (g.row - And1(g.row)) / 2 == g.row / 2;
  }

  // ---------------------------------------------------------------------
  // Slots
  // ---------------------------------------------------------------------

  /** `IsGridCoordValid`: the cell lies on the board, so its row-major index
      addresses one of the `bubblesPerRow * boardHeightInBubbleRows` slots. */
  predicate IsGridCoordValid(c: Config, g: Grid)
    ensures IsGridCoordValid(c, g) ==>
              0 <= g.col + g.row * c.bubblesPerRow < c.bubblesPerRow * c.boardHeightInBubbleRows
  {
    var onBoard := 0 <= g.col < c.bubblesPerRow && 0 <= g.row < c.boardHeightInBubbleRows;
    assert onBoard ==> 0 <= g.col + g.row * c.bubblesPerRow < c.bubblesPerRow * c.boardHeightInBubbleRows by {
      if onBoard {
        RowMajorBound(g.col, g.row, c.bubblesPerRow, c.boardHeightInBubbleRows);
      }
    }
    onBoard
  }

  /** The bound check is needed: a column outside the row can still give an
      index inside `slots`, the slot of a different cell. */
  lemma IndexInRangeIsNotValidity(c: Config)
    requires c.Valid() && c.boardHeightInBubbleRows >= 2
    ensures var g := Grid(-1, 1);
            && !IsGridCoordValid(c, g)
            && 0 <= Grid2Index(c, g) < c.SlotCount()
            && Grid2Index(c, g) == Grid2Index(c, Grid(c.bubblesPerRow - 1, 0))
  {
    MulLeMono(1, c.boardHeightInBubbleRows, c.bubblesPerRow);
  }

  /** `Grid2Index`: row-major slot index. Every cell on the board has a slot
      of the `bubblesPerRow * boardHeightInBubbleRows` that `Start`
      allocates. */
  function Grid2Index(c: Config, g: Grid): (i: int)
    ensures IsGridCoordValid(c, g) ==> 0 <= i < c.SlotCount()
  {
    g.col + g.row * c.bubblesPerRow
  }

  /** A cell on the board is recovered from its slot index. */
  lemma Grid2IndexInverse(c: Config, g: Grid)
    requires IsGridCoordValid(c, g)
    ensures Grid2Index(c, g) / c.bubblesPerRow == g.row
    ensures Grid2Index(c, g) % c.bubblesPerRow == g.col
  {
    DivModUnique(Grid2Index(c, g), c.bubblesPerRow, g.row, g.col);
  }

  /** Distinct cells on the board never share a slot. */
  lemma Grid2IndexInjective(c: Config, a: Grid, b: Grid)
    requires IsGridCoordValid(c, a) && IsGridCoordValid(c, b)
    requires Grid2Index(c, a) == Grid2Index(c, b)
    ensures a == b
  {
    Grid2IndexInverse(c, a);
    Grid2IndexInverse(c, b);
  }

  lemma DivModUnique(i: int, w: int, q: int, r: int)
    requires 0 < w && 0 <= r < w && i == r + q * w
    ensures i / w == q && i % w == r
  {
    var q' := i / w;
    var r' := i % w;
    assert i == q' * w + r';
    assert (q - q') * w == r' - r;
    if q' < q {
      MulLeMono(1, q - q', w);
    } else if q < q' {
      MulLeMono(1, q' - q, w);
    }
  }

  lemma RowMajorBound(col: int, row: int, w: int, h: int)
    requires 0 <= col < w && 0 <= row < h
    ensures 0 <= col + row * w < w * h
  {
    assert row * w <= (h - 1) * w by {
      MulLeMono(row, h - 1, w);
    }
    assert (h - 1) * w == w * h - w;
  }

  lemma MulLeMono(a: int, b: int, w: int)
    requires 0 <= a <= b && 0 <= w
    ensures 0 <= a * w <= b * w
  {
  }
}
