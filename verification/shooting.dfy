/**
  The shot: the board's state, the moving bubble, and one pass through the
  loop of `ShootImpl`: move the bubble, test for a collision, then stick it
  to the board or reflect its direction off a side wall.

  The engine runs the loop as a coroutine that waits a frame after each
  pass without a collision, and continues a bounce by starting a nested
  coroutine in the same frame. Here a shot is a state value and `Run` is a
  loop over the time intervals of successive passes; a bounce simply
  continues the loop with the new direction.
 */
module ShootSimulation {

  import opened Options
  import opened Vectors
  import opened BoardConfig
  import opened HexCoordinates
  import opened Occupancy
  import opened CollisionResolver

  /** The board: its configuration, `slots`, and the `canShoot` flag that
      is false while a shot is in flight. */
  datatype Board = Board(config: Config, slots: Slots, canShoot: bool) {
    predicate Valid() {
      config.Valid() && SlotsFit(config, slots)
    }
  }

  /** The moving bubble, where it is and the direction it travels in. */
  datatype Shot = Shot(bubble: Bubble, pos: Vec2, dir: Vec2)

  /** Where a shot stands after a pass through the loop: still travelling
      (the engine waits for the next frame), bounced off a side wall (the
      engine goes on at once with the new direction), or stuck to the board
      at `grid`, its bubble moved to `pos`. */
  datatype Phase =
    | Travelling(shot: Shot)
    | Bounced(shot: Shot)
    | Stuck(bubble: Bubble, grid: Grid, pos: Vec2)

  datatype ShotState = ShotState(board: Board, phase: Phase)

  /** `Start`: the slots are allocated empty and a shot may be fired. */
  function Start(c: Config): (b: Board)
    requires c.Valid()
    ensures b.Valid() && b.config == c && b.canShoot
    ensures forall g :: IsGridCoordValid(c, g) ==> Get(c, b.slots, g) == None
  {
    Board(c, EmptySlots(c), true)
  }

  /** `Shoot` and the first line of `ShootImpl`: the board is busy until
      the bubble sticks. */
  function Fire(b: Board, bubble: Bubble, pos: Vec2, dir: Vec2): (s: ShotState)
    ensures !s.board.canShoot
    ensures s.board.config == b.config && s.board.slots == b.slots
    ensures s.phase == Travelling(Shot(bubble, pos, dir))
  {
    ShotState(b.(canShoot := false), Travelling(Shot(bubble, pos, dir)))
  }

  /** A click fires only while `canShoot` holds; otherwise it is ignored. */
  function TryFire(b: Board, bubble: Bubble, pos: Vec2, dir: Vec2): (s: Option<ShotState>)
    ensures s.Some? <==> b.canShoot
    ensures s.Some? ==> !s.value.board.canShoot && s.value.board.slots == b.slots
                        && s.value.phase.Travelling? && s.value.phase.shot.bubble == bubble
  {
    if b.canShoot then Some(Fire(b, bubble, pos, dir)) else None
  }

  /** `Translate(dir * bubbleShootingSpeed * deltaTime)`: the bubble moves
      along `dir`, never across it, and for a unit direction it covers
      `bubbleShootingSpeed * deltaTime`. */
  function Advance(c: Config, s: Shot, dt: real): (p: Vec2)
    ensures MovedAlong(s.pos, p, s.dir, c.bubbleShootingSpeed * dt)
  {
    var p := Add(s.pos, Scale(s.dir, c.bubbleShootingSpeed * dt));
    TranslateDistance(s.pos, s.dir, c.bubbleShootingSpeed * dt);
    p
  }

  /** One pass through the loop of `ShootImpl`, `dt` being the frame's
      `Time.deltaTime`.
      - Stuck: the bubble sits at the centre of the cell its moved position
        snaps to, that cell of the board now holds it, every other cell
        holds what it held, and the board accepts the next shot.
      - Bounced: the direction is mirrored about the wall, its x component
        negated; the board is untouched.
      - Travelling: the bubble has moved and nothing else changed. */
  function Step(b: Board, s: Shot, dt: real): (r: ShotState)
    requires b.Valid()
    ensures r.board.Valid() && r.board.config == b.config
    ensures var c := b.config;
            r.phase.Stuck? ==>
              && r.phase.bubble == s.bubble
              && r.phase.grid == Local2Grid(c, Advance(c, s, dt))
              && IsGridCoordValid(c, r.phase.grid)
              && r.phase.pos == Grid2Local(c, r.phase.grid)
              && Local2Grid(c, r.phase.pos) == r.phase.grid
              && Get(c, r.board.slots, r.phase.grid) == Some(s.bubble)
              && (forall h :: IsGridCoordValid(c, h) && h != r.phase.grid ==>
                    Get(c, r.board.slots, h) == Get(c, b.slots, h))
              && r.board.canShoot
    ensures !r.phase.Stuck? ==> r.board == b
    ensures r.phase.Bounced? ==>
              && r.phase.shot.bubble == s.bubble
              && r.phase.shot.pos == Advance(b.config, s, dt)
              && r.phase.shot.dir == Vec2(-s.dir.x, s.dir.y)
    ensures r.phase.Travelling? ==> r.phase.shot == Shot(s.bubble, Advance(b.config, s, dt), s.dir)
    ensures var hit := CollisionTest(b.config, b.slots, Advance(b.config, s, dt));
            && (r.phase.Travelling? <==> hit.None?)
            && (r.phase.Stuck? <==> hit.Some? && hit.value.isSticking)
            && (r.phase.Stuck? ==> r.phase.grid == hit.value.grid)
            && (r.phase.Bounced? ==> r.phase.shot.dir == Reflect(s.dir, hit.value.collidingPointNormal))
  {
    var c := b.config;
    var pos := Advance(c, s, dt);
    var hit := CollisionTest(c, b.slots, pos);
    if hit.None? then
      ShotState(b, Travelling(Shot(s.bubble, pos, s.dir)))
    else if hit.value.isSticking then
      Stick(b, s.bubble, hit.value.grid)
    else
      Bounce(b, Shot(s.bubble, pos, s.dir), hit.value.collidingPointNormal)
  }

  /** The bounce of a pass off a side wall: the direction is reflected about
      the wall's normal, which negates its x component. */
  function Bounce(b: Board, s: Shot, n: Vec2): (r: ShotState)
    requires n == Vectors.Right || n == Vectors.Left
    ensures r.board == b
    ensures r.phase == Bounced(Shot(s.bubble, s.pos, Reflect(s.dir, n)))
    ensures r.phase.shot.dir == Vec2(-s.dir.x, s.dir.y)
  {
    ReflectOffSideWall(s.dir, n);
    ShotState(b, Bounced(Shot(s.bubble, s.pos, Reflect(s.dir, n))))
  }

  /** The stick of a pass: the bubble moves to the centre of cell `g`, the
      cell holds it, every other cell holds what it held, and the board
      accepts the next shot. */
  function Stick(b: Board, bubble: Bubble, g: Grid): (r: ShotState)
    requires b.Valid() && IsGridCoordValid(b.config, g)
    ensures r.board.Valid() && r.board.config == b.config && r.board.canShoot
    ensures r.phase == Stuck(bubble, g, Grid2Local(b.config, g))
    ensures Local2Grid(b.config, r.phase.pos) == g
    ensures Get(b.config, r.board.slots, g) == Some(bubble)
    ensures forall h :: IsGridCoordValid(b.config, h) && h != g ==>
              Get(b.config, r.board.slots, h) == Get(b.config, b.slots, h)
  {
    var c := b.config;
    SnapRoundTrip(c, g);
    var slots := Place(c, b.slots, g, bubble);
    ShotState(b.(slots := slots, canShoot := true), Stuck(bubble, g, Grid2Local(c, g)))
  }

  /** A bubble sticks only against something: the neighbour that decides
      the step is inside the side walls and is either above the top row (the
      ceiling) or a cell that already holds a bubble. */
  lemma StuckOnlyAgainstCeilingOrBubble(b: Board, s: Shot, dt: real)
    requires b.Valid() && Step(b, s, dt).phase.Stuck?
    ensures var c := b.config;
            var pos := Advance(c, s, dt);
            var g := Local2Grid(c, pos);
            exists k :: 0 <= k < 6 && Decides(c, b.slots, pos, g, k) &&
              var n := CandidateAt(c, pos, g, k).grid;
              && 0 <= n.col < c.bubblesPerRow && n.row < c.boardHeightInBubbleRows
              && (n.row < 0 || Get(c, b.slots, n).Some?)
  {
    var c := b.config;
    var pos := Advance(c, s, dt);
    assert CollisionTest(c, b.slots, pos).Some? && CollisionTest(c, b.slots, pos).value.isSticking;
    StickDecidedByCeilingOrBubble(c, b.slots, pos);
  }

  /** Every occupied cell of `before` is still occupied in `after`: nothing
      in a shot empties a slot. */
  ghost predicate NeverEmptied(c: Config, before: Slots, after: Slots)
    requires SlotsFit(c, before) && SlotsFit(c, after)
  {
    forall h :: IsGridCoordValid(c, h) && Get(c, before, h).Some? ==> Get(c, after, h).Some?
  }

  /** The reference for `Run`: `Step` applied to the state pass after pass,
      one interval each, until the bubble sticks or the intervals run out. */
  function Passes(r: ShotState, dts: seq<real>): ShotState
    requires r.board.Valid()
    decreases |dts|
  {
    if |dts| == 0 || r.phase.Stuck? then r
    else Passes(Step(r.board, r.phase.shot, dts[0]), dts[1..])
  }

  /** The shot, pass after pass, `dts[i]` being the time interval of the
      i-th pass (a bounce repeats its frame's interval), until the bubble
      sticks or the intervals run out. The board stays busy and unchanged
      until the bubble sticks; then exactly one cell has changed, it holds
      the bubble, and the board is free again. */
  method Run(b: Board, s: Shot, dts: seq<real>) returns (r: ShotState, passes: nat)
    requires b.Valid() && !b.canShoot
    ensures r == Passes(ShotState(b, Travelling(s)), dts)
    ensures passes <= |dts|
    ensures r.board.Valid() && r.board.config == b.config
    ensures r.board.canShoot <==> r.phase.Stuck?
    ensures !r.phase.Stuck? ==> r.board == b && passes == |dts| && r.phase.shot.bubble == s.bubble
    ensures r.phase.Stuck? ==>
              && passes > 0
              && r.phase.bubble == s.bubble
              && IsGridCoordValid(b.config, r.phase.grid)
              && Get(b.config, r.board.slots, r.phase.grid) == Some(s.bubble)
              && (forall h :: IsGridCoordValid(b.config, h) && h != r.phase.grid ==>
                    Get(b.config, r.board.slots, h) == Get(b.config, b.slots, h))
    ensures NeverEmptied(b.config, b.slots, r.board.slots)
  {
    var c := b.config;
    r := ShotState(b, Travelling(s));
    passes := 0;
    while passes < |dts| && !r.phase.Stuck?
      invariant passes <= |dts|
      invariant r.board.Valid() && r.board.config == c
      invariant Passes(r, dts[passes..]) == Passes(ShotState(b, Travelling(s)), dts)
      invariant r.board.canShoot <==> r.phase.Stuck?
      invariant !r.phase.Stuck? ==> r.board == b && r.phase.shot.bubble == s.bubble
      invariant r.phase.Stuck? ==>
                  && passes > 0
                  && r.phase.bubble == s.bubble
                  && IsGridCoordValid(c, r.phase.grid)
                  && Get(c, r.board.slots, r.phase.grid) == Some(s.bubble)
                  && (forall h :: IsGridCoordValid(c, h) && h != r.phase.grid ==>
                        Get(c, r.board.slots, h) == Get(c, b.slots, h))
    {
      r := Step(r.board, r.phase.shot, dts[passes]);
      passes := passes + 1;
    }
  }
}
