/**
  `CollisionTest`: given where the moving bubble is, decide whether it hits
  something this step, and whether the hit is a bounce off a side wall or a
  stick to the ceiling or to a bubble already on the board.

  The bubble's own cell is found by snapping its position. Of that cell's six
  neighbours, those whose centres lie within the collide distance and that
  are not below the last row become candidates; the candidates are ordered by
  distance (a stable order, so equally near ones keep their table order) and
  the first one that is a side wall, the ceiling or an occupied cell decides.
 */
module CollisionResolver {

  import opened Options
  import opened Vectors
  import opened BoardConfig
  import opened HexCoordinates
  import opened Neighbours
  import opened Occupancy

  /** `BubbleCollision`. `grid` is always the moving bubble's own cell;
      `collidingPointNormal` matters for a bounce only. */
  datatype BubbleCollision = BubbleCollision(grid: Grid, isSticking: bool, collidingPointNormal: Vec2)

  /** An entry of `potential_collisions`: a neighbour cell and its squared
      distance from the bubble; `order` is its place in the offset table. */
  datatype Candidate = Candidate(grid: Grid, dist2: real, order: nat)

  // ---------------------------------------------------------------------
  // Gathering the candidates
  // ---------------------------------------------------------------------

  /** The neighbour reached through entry `k` of the table of `g`'s row. */
  function CandidateAt(c: Config, pos: Vec2, g: Grid, k: nat): Candidate
    requires c.GeometryOk() && k < 6
  {
    var n := Shift(g, NeighbourOffsets(g.row)[k]);
    Candidate(n, Dist2(pos, Grid2Local(c, n)), k)
  }

  /** Close enough to touch, and not below the last row: nothing happens at
      the bottom of the board. */
  predicate Retained(c: Config, cand: Candidate) {
    cand.dist2 <= c.CollideDistance2() && cand.grid.row < c.boardHeightInBubbleRows
  }

  /** The loop over the offset table from entry `k` on: the retained
      neighbours, in table order. */
  function Gather(c: Config, pos: Vec2, g: Grid, k: nat): (cs: seq<Candidate>)
    requires c.GeometryOk() && k <= 6
    decreases 6 - k
    ensures forall i :: 0 <= i < |cs| ==>
              && k <= cs[i].order < 6
              && cs[i] == CandidateAt(c, pos, g, cs[i].order)
              && Retained(c, cs[i])
    ensures forall i, j :: 0 <= i < j < |cs| ==> cs[i].order < cs[j].order
    ensures forall m :: k <= m < 6 && Retained(c, CandidateAt(c, pos, g, m)) ==>
              CandidateAt(c, pos, g, m) in cs
  {
    if k == 6 then []
    else
      var cand := CandidateAt(c, pos, g, k);
      var rest := Gather(c, pos, g, k + 1);
      if Retained(c, cand) then [cand] + rest else rest
  }

  // ---------------------------------------------------------------------
  // Ordering by distance
  // ---------------------------------------------------------------------

  /** Nearer first; among equally near candidates, earlier in the table
      first. */
  predicate Precedes(a: Candidate, b: Candidate) {
    a.dist2 < b.dist2 || (a.dist2 == b.dist2 && a.order < b.order)
  }

  predicate SortedByDistance(s: seq<Candidate>) {
    forall i, j :: 0 <= i < j < |s| ==> Precedes(s[i], s[j])
  }

  predicate InTableOrder(s: seq<Candidate>) {
    forall i, j :: 0 <= i < j < |s| ==> s[i].order < s[j].order
  }

  /** Insert `x` after every element that is not strictly farther. */
  function Insert(x: Candidate, s: seq<Candidate>): (r: seq<Candidate>)
    ensures multiset(r) == multiset(s) + multiset{x}
    ensures SortedByDistance(s) && (forall i :: 0 <= i < |s| ==> s[i].order < x.order) ==>
              SortedByDistance(r)
  {
    if |s| == 0 || x.dist2 < s[0].dist2 then
      [x] + s
    else
      var rest := Insert(x, s[1..]);
      assert s == [s[0]] + s[1..];
      assert SortedByDistance(s) && (forall i :: 0 <= i < |s| ==> s[i].order < x.order) ==>
               SortedByDistance([s[0]] + rest) by {
        if SortedByDistance(s) && (forall i :: 0 <= i < |s| ==> s[i].order < x.order) {
          HeadPrecedesInserted(x, s, rest);
          ConsSorted(s[0], rest);
        }
      }
      [s[0]] + rest
  }

  /** When `x` goes behind the head of a sorted `s`, the head precedes
      everything the insertion into the tail produced. */
  lemma HeadPrecedesInserted(x: Candidate, s: seq<Candidate>, rest: seq<Candidate>)
    requires |s| > 0 && !(x.dist2 < s[0].dist2)
    requires SortedByDistance(s) && forall i :: 0 <= i < |s| ==> s[i].order < x.order
    requires multiset(rest) == multiset(s[1..]) + multiset{x}
    ensures forall j :: 0 <= j < |rest| ==> Precedes(s[0], rest[j])
  {
    forall j | 0 <= j < |rest|
      ensures Precedes(s[0], rest[j])
    {
      assert rest[j] in multiset(rest);
      if rest[j] != x {
        assert rest[j] in multiset(s[1..]);
        var m :| 0 <= m < |s[1..]| && s[1..][m] == rest[j];
        assert s[m + 1] == rest[j];
      }
    }
  }

  lemma ConsSorted(h: Candidate, t: seq<Candidate>)
    requires SortedByDistance(t)
    requires forall j :: 0 <= j < |t| ==> Precedes(h, t[j])
    ensures SortedByDistance([h] + t)
  {
    var r := [h] + t;
    forall i, j | 0 <= i < j < |r|
      ensures Precedes(r[i], r[j])
    {
      assert r[j] == t[j - 1];
      if i > 0 {
        assert r[i] == t[i - 1];
      }
    }
  }

  /** `OrderBy(t => t.Value)`: a stable sort by distance. On candidates in
      table order the result is a permutation ordered by distance, ties kept
      in table order. */
  function OrderByDistance(s: seq<Candidate>): (r: seq<Candidate>)
    ensures multiset(r) == multiset(s)
    ensures InTableOrder(s) ==> SortedByDistance(r)
  {
    if |s| == 0 then []
    else
      var sorted := OrderByDistance(s[..|s| - 1]);
      LastComesLast(s, sorted);
      Insert(s[|s| - 1], sorted)
  }

  /** In table order the last candidate has the largest table index, so the
      sorted prefix keeps its place ahead of it on a distance tie. */
  lemma LastComesLast(s: seq<Candidate>, sorted: seq<Candidate>)
    requires |s| > 0
    requires multiset(sorted) == multiset(s[..|s| - 1])
    ensures multiset(sorted) + multiset{s[|s| - 1]} == multiset(s)
    ensures InTableOrder(s) ==> InTableOrder(s[..|s| - 1])
    ensures InTableOrder(s) ==> forall i :: 0 <= i < |sorted| ==> sorted[i].order < s[|s| - 1].order
  {
    var init := s[..|s| - 1];
    assert s == init + [s[|s| - 1]];
    if InTableOrder(s) {
      forall i | 0 <= i < |sorted|
        ensures sorted[i].order < s[|s| - 1].order
      {
        assert sorted[i] in multiset(init);
        var m :| 0 <= m < |init| && init[m] == sorted[i];
      }
    }
  }

  // ---------------------------------------------------------------------
  // Classification
  // ---------------------------------------------------------------------

  /** One turn of the loop over the ordered candidates: a neighbour outside
      the columns is a side wall (normal pointing back into the board); one
      above the top row, or an occupied cell, is a stick; anything else lets
      the loop go on. The slot is read only for a cell on the board. */
  function Classify(c: Config, slots: Slots, g: Grid, n: Grid): (r: Option<BubbleCollision>)
    requires SlotsFit(c, slots) && n.row < c.boardHeightInBubbleRows
    ensures r.None? <==> IsGridCoordValid(c, n) && Get(c, slots, n).None?
    ensures r.Some? ==> r.value.grid == g
    ensures (r.Some? && !r.value.isSticking) <==> !(0 <= n.col < c.bubblesPerRow)
    ensures r.Some? && !r.value.isSticking ==>
              r.value.collidingPointNormal == (if n.col < 0 then Vectors.Right else Vectors.Left)
    ensures r.Some? && r.value.isSticking ==> r.value.collidingPointNormal == Zero
  {
    var left := n.col < 0;
    var right := n.col >= c.bubblesPerRow;
    if left || right then
      Some(BubbleCollision(g, false, if left then Vectors.Right else Vectors.Left))
    else if n.row < 0 || Get(c, slots, n).Some? then
      Some(BubbleCollision(g, true, Zero))
    else
      None
  }

  /** The first candidate whose classification is a collision decides. */
  function FirstCollision(c: Config, slots: Slots, g: Grid, cs: seq<Candidate>): (r: Option<BubbleCollision>)
    requires SlotsFit(c, slots)
    requires forall i :: 0 <= i < |cs| ==> cs[i].grid.row < c.boardHeightInBubbleRows
    ensures r.Some? ==>
              exists i :: 0 <= i < |cs| && Classify(c, slots, g, cs[i].grid) == r &&
                forall j :: 0 <= j < i ==> Classify(c, slots, g, cs[j].grid).None?
    ensures r.None? ==> forall i :: 0 <= i < |cs| ==> Classify(c, slots, g, cs[i].grid).None?
  {
    if |cs| == 0 then None
    else
      var hit := Classify(c, slots, g, cs[0].grid);
      if hit.Some? then hit
      else
        var r := FirstCollision(c, slots, g, cs[1..]);
        assert r.Some? ==>
          exists i :: 0 <= i < |cs| && Classify(c, slots, g, cs[i].grid) == r &&
            forall j :: 0 <= j < i ==> Classify(c, slots, g, cs[j].grid).None?
        by {
          if r.Some? {
            var i :| 0 <= i < |cs[1..]| && Classify(c, slots, g, cs[1..][i].grid) == r &&
                     forall j :: 0 <= j < i ==> Classify(c, slots, g, cs[1..][j].grid).None?;
            assert Classify(c, slots, g, cs[i + 1].grid) == r;
          }
        }
        r
  }

  /** `CollisionTest`. No collision is reported for a bubble whose own cell
      is off the board; a reported collision names that cell, and is either
      a stick with a zero normal or a bounce off a side wall. */
  function CollisionTest(c: Config, slots: Slots, pos: Vec2): (r: Option<BubbleCollision>)
    requires c.GeometryOk() && SlotsFit(c, slots)
    ensures !IsGridCoordValid(c, Local2Grid(c, pos)) ==> r.None?
    ensures r.Some? ==> r.value.grid == Local2Grid(c, pos)
    ensures r.Some? && r.value.isSticking ==> r.value.collidingPointNormal == Zero
    ensures r.Some? && !r.value.isSticking ==>
              r.value.collidingPointNormal == Vectors.Right || r.value.collidingPointNormal == Vectors.Left
  {
    var g := Local2Grid(c, pos);
    if !IsGridCoordValid(c, g) then None
    else
      var cs := OrderByDistance(Gather(c, pos, g, 0));
      forall i | 0 <= i < |cs|
        ensures cs[i].grid.row < c.boardHeightInBubbleRows
      {
        assert cs[i] in multiset(Gather(c, pos, g, 0));
      }
      FirstCollision(c, slots, g, cs)
  }

  // ---------------------------------------------------------------------
  // What decides a collision
  // ---------------------------------------------------------------------

  /** A neighbour the step would act on: a candidate, and a side wall, the
      ceiling or an occupied cell. */
  predicate Qualifies(c: Config, slots: Slots, g: Grid, cand: Candidate)
    requires SlotsFit(c, slots)
  {
    Retained(c, cand) && Classify(c, slots, g, cand.grid).Some?
  }

  /** Entry `k` of the table decides the step: it qualifies, and every
      candidate nearer than it (or as near and earlier in the table) does
      not. This names the outcome without sorting anything. */
  predicate Decides(c: Config, slots: Slots, pos: Vec2, g: Grid, k: nat)
    requires c.GeometryOk() && SlotsFit(c, slots) && k < 6
  {
    && Qualifies(c, slots, g, CandidateAt(c, pos, g, k))
    && forall j :: 0 <= j < 6 ==>
         (Retained(c, CandidateAt(c, pos, g, j)) &&
          Precedes(CandidateAt(c, pos, g, j), CandidateAt(c, pos, g, k))) ==>
         Classify(c, slots, g, CandidateAt(c, pos, g, j).grid).None?
  }

  /** Some neighbour of `g` qualifies. */
  predicate AnyQualifies(c: Config, slots: Slots, pos: Vec2, g: Grid)
    requires c.GeometryOk() && SlotsFit(c, slots)
  {
    exists k :: 0 <= k < 6 && Qualifies(c, slots, g, CandidateAt(c, pos, g, k))
  }

  /** The ordered candidate list `CollisionTest` scans: the retained
      neighbours and nothing else, nearest first. */
  lemma OrderedCandidates(c: Config, pos: Vec2, g: Grid)
    requires c.GeometryOk()
    ensures var ss := OrderByDistance(Gather(c, pos, g, 0));
            && SortedByDistance(ss)
            && (forall i :: 0 <= i < |ss| ==>
                  ss[i].order < 6 && ss[i] == CandidateAt(c, pos, g, ss[i].order) && Retained(c, ss[i]))
            && (forall k :: 0 <= k < 6 && Retained(c, CandidateAt(c, pos, g, k)) ==>
                  CandidateAt(c, pos, g, k) in ss)
  {
    var cs := Gather(c, pos, g, 0);
    var ss := OrderByDistance(cs);
    SameElements(cs, ss);
    TableEntries(c, pos, g, cs, ss);
  }

  /** What holds of every element of `cs` holds of every element of `ss`
      when both hold the same elements. */
  lemma TableEntries(c: Config, pos: Vec2, g: Grid, cs: seq<Candidate>, ss: seq<Candidate>)
    requires c.GeometryOk()
    requires forall x :: x in cs <==> x in ss
    requires forall i :: 0 <= i < |cs| ==>
               cs[i].order < 6 && cs[i] == CandidateAt(c, pos, g, cs[i].order) && Retained(c, cs[i])
    requires forall k :: 0 <= k < 6 && Retained(c, CandidateAt(c, pos, g, k)) ==> CandidateAt(c, pos, g, k) in cs
    ensures forall i :: 0 <= i < |ss| ==>
              ss[i].order < 6 && ss[i] == CandidateAt(c, pos, g, ss[i].order) && Retained(c, ss[i])
    ensures forall k :: 0 <= k < 6 && Retained(c, CandidateAt(c, pos, g, k)) ==> CandidateAt(c, pos, g, k) in ss
  {
    forall i | 0 <= i < |ss|
      ensures ss[i].order < 6 && ss[i] == CandidateAt(c, pos, g, ss[i].order) && Retained(c, ss[i])
    {
      assert ss[i] in cs;
      var m :| 0 <= m < |cs| && cs[m] == ss[i];
    }
  }

  /** Two lists with the same multiset hold the same elements. */
  lemma SameElements(a: seq<Candidate>, b: seq<Candidate>)
    requires multiset(a) == multiset(b)
    ensures forall x :: x in a <==> x in b
  {
    forall x
      ensures x in a <==> x in b
    {
      assert x in a <==> x in multiset(a);
      assert x in b <==> x in multiset(b);
    }
  }

  /** Sorting and then scanning agrees with the description above: there is
      a collision exactly when the bubble's cell is on the board and some
      neighbour qualifies, and then it is the classification of the deciding
      neighbour. */
  lemma CollisionTestNearestFirst(c: Config, slots: Slots, pos: Vec2)
    requires c.GeometryOk() && SlotsFit(c, slots)
    ensures var g := Local2Grid(c, pos);
            var r := CollisionTest(c, slots, pos);
            && (r.Some? <==> (IsGridCoordValid(c, g) && AnyQualifies(c, slots, pos, g)))
            && (r.Some? ==>
                  (exists k :: 0 <= k < 6 && Decides(c, slots, pos, g, k) &&
                     r == Classify(c, slots, g, CandidateAt(c, pos, g, k).grid)))
  {
    var g := Local2Grid(c, pos);
    if IsGridCoordValid(c, g) {
      var ss := OrderByDistance(Gather(c, pos, g, 0));
      OrderedCandidates(c, pos, g);
      var r := FirstCollision(c, slots, g, ss);
      assert CollisionTest(c, slots, pos) == r;
      if r.Some? {
        FirstHitDecides(c, slots, pos, g, ss, r);
      } else {
        NoHitNoneQualifies(c, slots, pos, g, ss);
      }
    }
  }

  lemma FirstHitDecides(c: Config, slots: Slots, pos: Vec2, g: Grid, ss: seq<Candidate>,
                        r: Option<BubbleCollision>)
    requires c.GeometryOk() && SlotsFit(c, slots)
    requires SortedByDistance(ss)
    requires forall i :: 0 <= i < |ss| ==>
               ss[i].order < 6 && ss[i] == CandidateAt(c, pos, g, ss[i].order) && Retained(c, ss[i])
    requires forall k :: 0 <= k < 6 && Retained(c, CandidateAt(c, pos, g, k)) ==>
               CandidateAt(c, pos, g, k) in ss
    requires forall i :: 0 <= i < |ss| ==> ss[i].grid.row < c.boardHeightInBubbleRows
    requires r.Some? && r == FirstCollision(c, slots, g, ss)
    ensures AnyQualifies(c, slots, pos, g)
    ensures exists k :: 0 <= k < 6 && Decides(c, slots, pos, g, k) &&
              r == Classify(c, slots, g, CandidateAt(c, pos, g, k).grid)
  {
    var i :| 0 <= i < |ss| && Classify(c, slots, g, ss[i].grid) == r &&
             forall j :: 0 <= j < i ==> Classify(c, slots, g, ss[j].grid).None?;
    var k := ss[i].order;
    var ck := CandidateAt(c, pos, g, k);
    assert Qualifies(c, slots, g, ck);
    forall j | 0 <= j < 6
      ensures (Retained(c, CandidateAt(c, pos, g, j)) && Precedes(CandidateAt(c, pos, g, j), ck)) ==>
              Classify(c, slots, g, CandidateAt(c, pos, g, j).grid).None?
    {
      var cj := CandidateAt(c, pos, g, j);
      if Retained(c, cj) && Precedes(cj, ck) {
        EarlierCandidateMisses(c, slots, g, ss, i, cj);
      }
    }
    assert Decides(c, slots, pos, g, k);
  }

  /** In a sorted list, a candidate that precedes the first hit comes before
      it in the list, so it classified as nothing. */
  lemma EarlierCandidateMisses(c: Config, slots: Slots, g: Grid, ss: seq<Candidate>, i: nat, x: Candidate)
    requires SlotsFit(c, slots) && SortedByDistance(ss) && i < |ss|
    requires forall p :: 0 <= p < |ss| ==> ss[p].grid.row < c.boardHeightInBubbleRows
    requires forall j :: 0 <= j < i ==> Classify(c, slots, g, ss[j].grid).None?
    requires x in ss && Precedes(x, ss[i])
    ensures x.grid.row < c.boardHeightInBubbleRows && Classify(c, slots, g, x.grid).None?
  {
    var p :| 0 <= p < |ss| && ss[p] == x;
    assert p < i;
  }

  lemma NoHitNoneQualifies(c: Config, slots: Slots, pos: Vec2, g: Grid, ss: seq<Candidate>)
    requires c.GeometryOk() && SlotsFit(c, slots)
    requires forall i :: 0 <= i < |ss| ==> ss[i].grid.row < c.boardHeightInBubbleRows
    requires forall k :: 0 <= k < 6 && Retained(c, CandidateAt(c, pos, g, k)) ==>
               CandidateAt(c, pos, g, k) in ss
    requires FirstCollision(c, slots, g, ss).None?
    ensures !AnyQualifies(c, slots, pos, g)
  {
    forall k | 0 <= k < 6
      ensures !Qualifies(c, slots, g, CandidateAt(c, pos, g, k))
    {
      var ck := CandidateAt(c, pos, g, k);
      if Retained(c, ck) {
        var p :| 0 <= p < |ss| && ss[p] == ck;
      }
    }
  }

  /** At most one table entry decides a step. */
  lemma DecidingNeighbourUnique(c: Config, slots: Slots, pos: Vec2, g: Grid, k1: nat, k2: nat)
    requires c.GeometryOk() && SlotsFit(c, slots) && k1 < 6 && k2 < 6
    requires Decides(c, slots, pos, g, k1) && Decides(c, slots, pos, g, k2)
    ensures k1 == k2
  {
  }

  /** A stick is decided by a neighbour between the side walls that is
      above the top row or occupied. */
  lemma StickDecidedByCeilingOrBubble(c: Config, slots: Slots, pos: Vec2)
    requires c.GeometryOk() && SlotsFit(c, slots)
    requires CollisionTest(c, slots, pos).Some? && CollisionTest(c, slots, pos).value.isSticking
    ensures var g := Local2Grid(c, pos);
            exists k :: 0 <= k < 6 && Decides(c, slots, pos, g, k) &&
              var n := CandidateAt(c, pos, g, k).grid;
              && 0 <= n.col < c.bubblesPerRow && n.row < c.boardHeightInBubbleRows
              && (n.row < 0 || Get(c, slots, n).Some?)
  {
    var g := Local2Grid(c, pos);
    var r := CollisionTest(c, slots, pos);
    CollisionTestNearestFirst(c, slots, pos);
    var k :| 0 <= k < 6 && Decides(c, slots, pos, g, k) &&
             r == Classify(c, slots, g, CandidateAt(c, pos, g, k).grid);
    assert Retained(c, CandidateAt(c, pos, g, k));
  }

  /** A neighbour below the last row never decides, however near it is:
      the bottom of the board is open. */
  lemma BelowBoardNeverDecides(c: Config, slots: Slots, pos: Vec2, g: Grid, k: nat)
    requires c.GeometryOk() && SlotsFit(c, slots) && k < 6
    requires CandidateAt(c, pos, g, k).grid.row >= c.boardHeightInBubbleRows
    ensures !Decides(c, slots, pos, g, k)
  {
  }

  /** So the deciding neighbour fixes the outcome of `CollisionTest`. */
  lemma CollisionTestDecidedBy(c: Config, slots: Slots, pos: Vec2, k: nat)
    requires c.GeometryOk() && SlotsFit(c, slots) && k < 6
    requires IsGridCoordValid(c, Local2Grid(c, pos))
    requires Decides(c, slots, pos, Local2Grid(c, pos), k)
    ensures CollisionTest(c, slots, pos) ==
            Classify(c, slots, Local2Grid(c, pos), CandidateAt(c, pos, Local2Grid(c, pos), k).grid)
  {
    var g := Local2Grid(c, pos);
    CollisionTestNearestFirst(c, slots, pos);
    var k' :| 0 <= k' < 6 && Decides(c, slots, pos, g, k') &&
              CollisionTest(c, slots, pos) == Classify(c, slots, g, CandidateAt(c, pos, g, k').grid);
    DecidingNeighbourUnique(c, slots, pos, g, k, k');
  }

  // ---------------------------------------------------------------------
  // Consequences
  // ---------------------------------------------------------------------

  /** A bounce only happens from a cell in the first or the last column, and
      its normal points back into the board: right off the left wall, left
      off the right wall. */
  lemma WallBounceOnlyAtEdges(c: Config, slots: Slots, pos: Vec2)
    requires c.GeometryOk() && SlotsFit(c, slots)
    ensures var r := CollisionTest(c, slots, pos);
            var g := Local2Grid(c, pos);
            r.Some? && !r.value.isSticking ==>
              || (r.value.collidingPointNormal == Vectors.Right && g.col == 0)
              || (r.value.collidingPointNormal == Vectors.Left && g.col == c.bubblesPerRow - 1)
  {
    var r := CollisionTest(c, slots, pos);
    var g := Local2Grid(c, pos);
    CollisionTestNearestFirst(c, slots, pos);
    if r.Some? {
      var k :| 0 <= k < 6 && Decides(c, slots, pos, g, k) &&
               r == Classify(c, slots, g, CandidateAt(c, pos, g, k).grid);
      OffsetsAreLocal(g.row, NeighbourOffsets(g.row)[k]);
    }
  }

  /** The nearest candidate (strictly ahead of every other one in the
      order) decides whenever it is a wall, the ceiling or an occupied cell:
      a side wall gives a bounce, the ceiling gives a stick whatever the
      slots hold, and so does an occupied cell. */
  lemma NearestCandidateDecides(c: Config, slots: Slots, pos: Vec2, k: nat)
    requires c.GeometryOk() && SlotsFit(c, slots) && k < 6
    requires IsGridCoordValid(c, Local2Grid(c, pos))
    requires Retained(c, CandidateAt(c, pos, Local2Grid(c, pos), k))
    requires forall j :: 0 <= j < 6 && j != k && Retained(c, CandidateAt(c, pos, Local2Grid(c, pos), j)) ==>
               Precedes(CandidateAt(c, pos, Local2Grid(c, pos), k), CandidateAt(c, pos, Local2Grid(c, pos), j))
    ensures var g := Local2Grid(c, pos);
            var n := CandidateAt(c, pos, g, k).grid;
            var r := CollisionTest(c, slots, pos);
            && (n.col < 0 ==> r == Some(BubbleCollision(g, false, Vectors.Right)))
            && (n.col >= c.bubblesPerRow ==> r == Some(BubbleCollision(g, false, Vectors.Left)))
            && (0 <= n.col < c.bubblesPerRow && n.row < 0 ==> r == Some(BubbleCollision(g, true, Zero)))
            && (IsGridCoordValid(c, n) && Get(c, slots, n).Some? ==> r == Some(BubbleCollision(g, true, Zero)))
  {
    var g := Local2Grid(c, pos);
    var n := CandidateAt(c, pos, g, k).grid;
    if Classify(c, slots, g, n).Some? {
      forall j | 0 <= j < 6
        ensures (Retained(c, CandidateAt(c, pos, g, j)) &&
                 Precedes(CandidateAt(c, pos, g, j), CandidateAt(c, pos, g, k))) ==>
                Classify(c, slots, g, CandidateAt(c, pos, g, j).grid).None?
      {
        if j != k && Retained(c, CandidateAt(c, pos, g, j)) {
          assert Precedes(CandidateAt(c, pos, g, k), CandidateAt(c, pos, g, j));
        }
      }
      CollisionTestDecidedBy(c, slots, pos, k);
    }
  }

  /** `collideThreshold` under-shoots the diameter: the collide distance is
      shorter than the distance between touching bubbles. */
  lemma CollideDistanceBelowDiameter(c: Config)
    requires c.bubbleRadius > 0.0
    ensures 0.0 < c.CollideDistance2() < (2.0 * c.bubbleRadius) * (2.0 * c.bubbleRadius)
  {
    var r := c.bubbleRadius;
    var d := CollideThreshold * r * 2.0;
    assert 0.0 < d < 2.0 * r;
    SquareMonotone(d, 2.0 * r);
  }

  lemma SquareMonotone(a: real, b: real)
    requires 0.0 < a < b
    ensures 0.0 < a * a < b * b
  {
    assert a * a < a * b;
    assert a * b < b * b;
  }

  /** A bubble resting exactly at the centre of a cell on the board touches
      none of its neighbours, so it collides with nothing: the snapped
      position of a stuck bubble is at rest. */
  lemma NoCollisionAtCellCentre(c: Config, slots: Slots, g: Grid)
    requires c.GeometryOk() && SlotsFit(c, slots)
    ensures CollisionTest(c, slots, Grid2Local(c, g)).None?
  {
    var pos := Grid2Local(c, g);
    SnapRoundTrip(c, g);
    CollideDistanceBelowDiameter(c);
    forall k | 0 <= k < 6
      ensures !Retained(c, CandidateAt(c, pos, g, k))
    {
      var o := NeighbourOffsets(g.row)[k];
      NeighbourCentresTouch(c, g, o);
    }
    CollisionTestNearestFirst(c, slots, pos);
  }
}
