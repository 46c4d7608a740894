/**
  The six neighbours of a cell. In the odd-row offset layout the column
  offsets of the cells above and below depend on whether the row is shifted,
  so there is one fixed table per row parity.
 */
module Neighbours {

  import opened RealMath
  import opened Vectors
  import opened BoardConfig
  import opened HexCoordinates

  datatype Offset = Offset(dc: int, dr: int)

  function Shift(g: Grid, o: Offset): Grid {
    Grid(g.col + o.dc, g.row + o.dr)
  }

  function Negate(o: Offset): Offset {
    Offset(-o.dc, -o.dr)
  }

  /** `neighbourGridOffsetsForEvenRow`: left, upper left, upper right, right,
      lower right, lower left. */
  const EvenRowOffsets: seq<Offset> :=
    [Offset(-1, 0), Offset(-1, -1), Offset(0, -1), Offset(1, 0), Offset(0, 1), Offset(-1, 1)]

  /** `neighbourGridOffsetsForOddRow`: the same six directions for a row
      shifted half a cell to the right. */
  const OddRowOffsets: seq<Offset> :=
    [Offset(-1, 0), Offset(0, -1), Offset(1, -1), Offset(1, 0), Offset(1, 1), Offset(0, 1)]

  /** The table `CollisionTest` picks by the parity `(int)row & 1`. */
  function NeighbourOffsets(row: int): seq<Offset> {
    if And1(row) == 0 then EvenRowOffsets else OddRowOffsets
  }

  /** `b` is one of the six cells the table of `a`'s row reaches. */
  predicate AreNeighbours(a: Grid, b: Grid) {
    Offset(b.col - a.col, b.row - a.row) in NeighbourOffsets(a.row)
  }

  /** Each table lists six different offsets, none of them zero, so every
      cell has exactly six neighbours other than itself. */
  lemma TablesHoldSixDistinctOffsets(row: int)
    ensures |NeighbourOffsets(row)| == 6
    ensures Offset(0, 0) !in NeighbourOffsets(row)
    ensures forall i, j :: 0 <= i < j < |NeighbourOffsets(row)| ==>
              NeighbourOffsets(row)[i] != NeighbourOffsets(row)[j]
  {
  }

  /** The table of a row holds the two cells beside in the row and, in the
      rows above and below, the two cells the row's half-cell shift puts it
      between: columns `-1` and `0` on an even row, `0` and `+1` on an odd
      one. */
  lemma OffsetsFollowRowShift(row: int)
    ensures var p := And1(row);
            forall o :: o in NeighbourOffsets(row) <==>
              || (o.dr == 0 && (o.dc == -1 || o.dc == 1))
              || ((o.dr == -1 || o.dr == 1) && (o.dc == p - 1 || o.dc == p))
  {
  }

  /** Every offset leads to a cell one row up, one row down or in the same
      row, and at most one column away. */
  lemma OffsetsAreLocal(row: int, o: Offset)
    requires o in NeighbourOffsets(row)
    ensures -1 <= o.dc <= 1 && -1 <= o.dr <= 1
    ensures o.dr == 0 ==> o.dc == 1 || o.dc == -1
  {
  }

  /** The tables agree with each other: the way back from a neighbour is in
      the table of the neighbour's own row. */
  lemma OffsetTablesSymmetric(row: int, o: Offset)
    requires o in NeighbourOffsets(row)
    ensures Negate(o) in NeighbourOffsets(row + o.dr)
  {
    if o.dr != 0 {
      assert And1(row + o.dr) != And1(row);
    } else {
      assert And1(row + o.dr) == And1(row);
    }
  }

  /** Adjacency is symmetric. */
  lemma AdjacencySymmetric(a: Grid, b: Grid)
    ensures AreNeighbours(a, b) <==> AreNeighbours(b, a)
  {
    if AreNeighbours(a, b) {
      OffsetTablesSymmetric(a.row, Offset(b.col - a.col, b.row - a.row));
    }
    if AreNeighbours(b, a) {
      OffsetTablesSymmetric(b.row, Offset(a.col - b.col, a.row - b.row));
    }
  }

  // ---------------------------------------------------------------------
  // The tables agree with the geometry
  // ---------------------------------------------------------------------

  /** The horizontal position of a cell's centre in units of a bubble
      diameter, the half-cell shift of odd rows included. */
  function Column(g: Grid): real {
    g.col as real + 0.5 * And1(g.row) as real
  }

  /** `4 r^2 dx^2 + 3 r^2 dy^2`: the squared length of a step of `dx`
      bubble diameters across and `dy` rows down. */
  function LatticeDistance2(r: real, dx: real, dy: real): real {
    4.0 * (r * r) * (dx * dx) + 3.0 * (r * r) * (dy * dy)
  }

  /** The squared distance between two cell centres: a column step is a
      bubble diameter `2r` and a row step is `1.5 * hexagonSize`, that is
      `sqrt 3 * r`. */
  lemma CentreDistance2(c: Config, a: Grid, b: Grid)
    requires c.GeometryOk()
    ensures Dist2(Grid2Local(c, a), Grid2Local(c, b))
            == LatticeDistance2(c.bubbleRadius, Column(b) - Column(a), (b.row - a.row) as real)
  {
    CentreDifference(c, a, b);
    RowStepSquared(c);
    Dist2Formula(Grid2Local(c, a), Grid2Local(c, b), c.bubbleRadius, 1.5 * c.HexagonSize(),
                 Column(b) - Column(a), (b.row - a.row) as real);
  }

  lemma Dist2Formula(pa: Vec2, pb: Vec2, r: real, k: real, dx: real, dy: real)
    requires pa.x - pb.x == -(2.0 * r) * dx && pa.y - pb.y == k * dy && k * k == 3.0 * (r * r)
    ensures Dist2(pa, pb) == LatticeDistance2(r, dx, dy)
  {
    SumOfSquares(pa.x - pb.x, pa.y - pb.y, r, k, dx, dy);
  }

  /** One row step, squared, is `3 r^2`. */
  lemma RowStepSquared(c: Config)
    requires c.GeometryOk()
    ensures (1.5 * c.HexagonSize()) * (1.5 * c.HexagonSize()) == 3.0 * (c.bubbleRadius * c.bubbleRadius)
  {
    var hs := c.HexagonSize();
    assert (1.5 * hs) * (1.5 * hs) == 2.25 * (hs * hs);
  }

  lemma CentreDifference(c: Config, a: Grid, b: Grid)
    requires c.GeometryOk()
    ensures Grid2Local(c, a).x - Grid2Local(c, b).x == -(2.0 * c.bubbleRadius) * (Column(b) - Column(a))
    ensures Grid2Local(c, a).y - Grid2Local(c, b).y == (1.5 * c.HexagonSize()) * (b.row - a.row) as real
  {
    ColumnDifference(c, a, b);
    RowCentreDifference(c, a, b);
  }

  lemma RowCentreDifference(c: Config, a: Grid, b: Grid)
    requires c.GeometryOk()
    ensures Grid2Local(c, a).y - Grid2Local(c, b).y == (1.5 * c.HexagonSize()) * (b.row - a.row) as real
  {
    var hs := c.HexagonSize();
    assert Grid2Local(c, a).y == -(hs * 3.0 / 2.0 * a.row as real) - hs;
    assert Grid2Local(c, b).y == -(hs * 3.0 / 2.0 * b.row as real) - hs;
    RowDifference(hs, a.row as real, b.row as real);
  }

  lemma ColumnDifference(c: Config, a: Grid, b: Grid)
    requires c.GeometryOk()
    ensures Grid2Local(c, a).x - Grid2Local(c, b).x == -(2.0 * c.bubbleRadius) * (Column(b) - Column(a))
  {
    var k := c.HexagonSize() * c.sqrt3;
    assert Grid2Local(c, a).x == k * Column(a) + c.bubbleRadius;
    assert Grid2Local(c, b).x == k * Column(b) + c.bubbleRadius;
    OffsetDifference(k, Column(a), Column(b), c.bubbleRadius);
  }

  lemma OffsetDifference(k: real, u: real, v: real, off: real)
    ensures (k * u + off) - (k * v + off) == -k * (v - u)
  {
  }

  lemma RowDifference(hs: real, ra: real, rb: real)
    ensures (-(hs * 3.0 / 2.0 * ra) - hs) - (-(hs * 3.0 / 2.0 * rb) - hs) == (1.5 * hs) * (rb - ra)
  {
  }

  lemma SumOfSquares(x: real, y: real, r: real, k: real, dx: real, dy: real)
    requires x == -(2.0 * r) * dx && y == k * dy && k * k == 3.0 * (r * r)
    ensures x * x + y * y == 4.0 * (r * r) * (dx * dx) + 3.0 * (r * r) * (dy * dy)
  {
    SquareOfProduct(-(2.0 * r), dx);
    SquareOfProduct(k, dy);
  }

  lemma SquareOfProduct(k: real, v: real)
    ensures (k * v) * (k * v) == (k * k) * (v * v)
  {
  }

  /** Every neighbour the tables name is a cell whose bubble touches the
      bubble of `g`: their centres are one diameter away. */
  lemma NeighbourCentresTouch(c: Config, g: Grid, o: Offset)
    requires c.GeometryOk()
    requires o in NeighbourOffsets(g.row)
    ensures var d := 2.0 * c.bubbleRadius;
            Dist2(Grid2Local(c, g), Grid2Local(c, Shift(g, o))) == d * d
  {
    var n := Shift(g, o);
    CentreDistance2(c, g, n);
    var dx := Column(n) - Column(g);
    var dy := (n.row - g.row) as real;
    if o.dr == 0 {
      assert And1(n.row) == And1(g.row);
      assert dx * dx == 1.0 && dy * dy == 0.0;
    } else {
      assert And1(n.row) != And1(g.row);
      assert dx * dx == 0.25 && dy * dy == 1.0;
    }
    UnitStep(c.bubbleRadius, dx, dy);
  }

  /** A step one column across, or half a column across and one row down,
      is one diameter long. */
  lemma UnitStep(r: real, dx: real, dy: real)
    requires (dx * dx == 1.0 && dy * dy == 0.0) || (dx * dx == 0.25 && dy * dy == 1.0)
    ensures LatticeDistance2(r, dx, dy) == (2.0 * r) * (2.0 * r)
  {
  }
}
