/**
  The occupancy grid: `slots`, one entry per cell of the board in row-major
  order, each empty or holding the bubble that stuck there.
 */
module Occupancy {

  import opened Options
  import opened BoardConfig
  import opened HexCoordinates

  /** A bubble; only its identity matters to the board. */
  datatype Bubble = Bubble(id: nat)

  type Slots = seq<Option<Bubble>>

  /** The slots cover the board exactly, as `Start` allocates them. */
  predicate SlotsFit(c: Config, slots: Slots) {
    |slots| == c.SlotCount()
  }

  /** `Start`: `new BubbleSlot[bubblesPerRow * boardHeightInBubbleRows]`,
      every slot empty. */
  function EmptySlots(c: Config): (s: Slots)
    requires c.Valid()
    ensures SlotsFit(c, s)
    ensures forall g :: IsGridCoordValid(c, g) ==> s[Grid2Index(c, g)] == None
  {
    seq(c.SlotCount(), _ => None)
  }

  /** The slot of a cell on the board. */
  function Get(c: Config, slots: Slots, g: Grid): Option<Bubble>
    requires SlotsFit(c, slots) && IsGridCoordValid(c, g)
  {
    slots[Grid2Index(c, g)]
  }

  /** The write `slots[Grid2Index(grid)] = new BubbleSlot { bubble }`: the
      cell now holds `b`, and every other cell of the board holds what it
      held before. */
  function Place(c: Config, slots: Slots, g: Grid, b: Bubble): (s: Slots)
    requires SlotsFit(c, slots) && IsGridCoordValid(c, g)
    ensures SlotsFit(c, s)
    ensures Get(c, s, g) == Some(b)
    ensures forall h :: IsGridCoordValid(c, h) && h != g ==> Get(c, s, h) == Get(c, slots, h)
  {
    var s := slots[Grid2Index(c, g) := Some(b)];
    forall h | IsGridCoordValid(c, h) && h != g
      ensures Get(c, s, h) == Get(c, slots, h)
    {
      if Grid2Index(c, h) == Grid2Index(c, g) {
        Grid2IndexInjective(c, h, g);
      }
    }
    s
  }
}
