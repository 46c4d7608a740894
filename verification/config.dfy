/**
  The board's configuration and the geometry constants `Start` derives from
  it once.
 */
module BoardConfig {

  /** `collideThreshold`: contact is reported slightly before two bubbles of
      radius `bubbleRadius` would touch. */
  const CollideThreshold: real := 0.95

  /** The inspector fields of the board. `sqrt3` is the value `Mathf.Sqrt(3)`
      stands for; `GeometryOk` pins it down as the positive square root of 3,
      so `cos 30°` is `sqrt3 / 2`. */
  datatype Config = Config(
    bubblesPerRow: int,
    boardHeightInBubbleRows: int,
    bubbleRadius: real,
    bubbleShootingSpeed: real,
    sqrt3: real)
  {
    predicate GeometryOk() {
      bubbleRadius > 0.0 && sqrt3 > 0.0 && sqrt3 * sqrt3 == 3.0
    }

    predicate Valid() {
      && GeometryOk()
      && bubblesPerRow >= 1
      && boardHeightInBubbleRows >= 1
      && bubbleShootingSpeed > 0.0
    }

    /** The length of `slots`: one slot per cell of the board. */
    function SlotCount(): int {
      bubblesPerRow * boardHeightInBubbleRows
    }

    /** `hexagonSize`, the circumradius of a cell: `bubbleRadius / cos 30°`.
        The bubble is the circle inscribed in its hexagon. */
    function HexagonSize(): (h: real)
      requires GeometryOk()
      ensures h > 0.0
      ensures h * sqrt3 == 2.0 * bubbleRadius
      ensures 3.0 * (h * h) == 4.0 * (bubbleRadius * bubbleRadius)
    {
      var h := bubbleRadius / (sqrt3 / 2.0);
      assert sqrt3 * sqrt3 == 3.0;
      assert h * sqrt3 == 2.0 * bubbleRadius;
      calc {
        3.0 * (h * h);
        (sqrt3 * sqrt3) * (h * h);
        (h * sqrt3) * (h * sqrt3);
        4.0 * (bubbleRadius * bubbleRadius);
      }
      h
    }

    /** `collideThreshold * bubbleRadius * 2`, squared, since candidate
        distances are compared as squares. */
    function CollideDistance2(): real
    {
      var d := CollideThreshold * bubbleRadius * 2.0;
      d * d
    }
  }
}
