/** The grid the planner searches: cells, obstacles, walks and their costs. */
module Grid {

  /** A cell; `x` is the row and `y` the column. */
  datatype Vec2i = Vec2i(x: int, y: int)

  function Add(left: Vec2i, right: Vec2i): Vec2i {
    Vec2i(left.x + right.x, left.y + right.y)
  }

  /** The first four moves are straight, the last four diagonal. */
  const DIRECTIONS: seq<Vec2i> :=
    [Vec2i(0, 1), Vec2i(1, 0), Vec2i(0, -1), Vec2i(-1, 0),
     Vec2i(-1, -1), Vec2i(1, 1), Vec2i(-1, 1), Vec2i(1, -1)]

  type MoveCount = n: nat | n == 4 || n == 8 witness 4

  /** The cell reached from `c` by move number `i`. */
  function Neighbour(c: Vec2i, i: nat): Vec2i
    requires i < 8
  {
    Add(c, DIRECTIONS[i])
  }

  function MoveCost(i: nat): nat {
    if i < 4 then 10 else 14
  }

  datatype World = World(size: Vec2i, walls: seq<Vec2i>, stalls: seq<Vec2i>, piles: seq<Vec2i>)

  predicate Collides(w: World, c: Vec2i) {
    || c.x < 0 || c.x >= w.size.x
    || c.y < 0 || c.y >= w.size.y
    || c in w.walls
    || c in w.stalls
    || c in w.piles
  }

  predicate Adjacent(dirs: MoveCount, a: Vec2i, b: Vec2i) {
    exists i: nat | i < dirs :: b == Neighbour(a, i)
  }

  /** Cost of one move between adjacent cells. */
  function EdgeCost(a: Vec2i, b: Vec2i): nat {
    if a.x == b.x || a.y == b.y then 10 else 14
  }

  lemma EdgeCostIsMoveCost(c: Vec2i, i: nat)
    requires i < 8
    ensures EdgeCost(c, Neighbour(c, i)) == MoveCost(i)
  {
  }

  /** A walk from `source`: every further cell is a free neighbour of the one before it. */
  ghost predicate IsWalk(w: World, dirs: MoveCount, source: Vec2i, p: seq<Vec2i>) {
    && |p| > 0
    && p[0] == source
    && forall i | 0 < i < |p| :: Adjacent(dirs, p[i - 1], p[i]) && !Collides(w, p[i])
  }

  function Cost(p: seq<Vec2i>): nat {
    if |p| <= 1 then 0 else Cost(p[..|p| - 1]) + EdgeCost(p[|p| - 2], p[|p| - 1])
  }

  function Last(p: seq<Vec2i>): Vec2i
    requires |p| > 0
  {
    p[|p| - 1]
  }

  lemma {:induction false} CostSplit(p: seq<Vec2i>, k: nat)
    requires k < |p|
    ensures Cost(p) == Cost(p[..k + 1]) + Cost(p[k..])
    decreases |p|
  {
    if k == |p| - 1 {
      assert p[..k + 1] == p;
    } else {
      var q := p[..|p| - 1];
      CostSplit(q, k);
      assert q[..k + 1] == p[..k + 1];
      assert q[k..] == p[k..][..|p[k..]| - 1];
    }
  }

  /** With four moves every step costs 10, so a walk's cost is fixed by its length. */
  lemma {:induction false} StraightCost(w: World, source: Vec2i, p: seq<Vec2i>)
    requires IsWalk(w, 4, source, p)
    ensures Cost(p) == 10 * (|p| - 1)
    decreases |p|
  {
    if |p| == 1 {
    } else {
      StraightCost(w, source, p[..|p| - 1]);
      assert Adjacent(4, p[|p| - 2], p[|p| - 1]);
    }
  }

  /** `g` is a lower bound on every walk from `source` to `c`. */
  ghost predicate NoCheaperWalk(w: World, dirs: MoveCount, source: Vec2i, c: Vec2i, g: nat) {
    forall p | IsWalk(w, dirs, source, p) && Last(p) == c :: g <= Cost(p)
  }

  /** `c` can be reached, and `g` is the cost of a cheapest walk to it. */
  ghost predicate IsDistance(w: World, dirs: MoveCount, source: Vec2i, c: Vec2i, g: nat) {
    && NoCheaperWalk(w, dirs, source, c, g)
    && exists p :: IsWalk(w, dirs, source, p) && Last(p) == c && Cost(p) == g
  }

  ghost predicate Reachable(w: World, dirs: MoveCount, source: Vec2i, c: Vec2i) {
    exists p :: IsWalk(w, dirs, source, p) && Last(p) == c
  }

  /** The planner stops beside the target, one row above or below it. */
  predicate IsStop(target: Vec2i, c: Vec2i) {
    c == Vec2i(target.x - 1, target.y) || c == Vec2i(target.x + 1, target.y)
  }
}

/** The heuristics and what makes one safe for a search that never reopens a closed cell. */
module Heuristics {
  import opened Grid

  type Heuristic = (Vec2i, Vec2i) -> nat

  function Abs(n: int): nat {
    if n < 0 then -n else n
  }

  function Min(a: nat, b: nat): nat {
    if a < b then a else b
  }

  function Delta(source: Vec2i, target: Vec2i): (d: Vec2i)
    ensures d.x >= 0 && d.y >= 0
  {
    Vec2i(Abs(source.x - target.x), Abs(source.y - target.y))
  }

  function Manhattan(source: Vec2i, target: Vec2i): nat {
    var d := Delta(source, target);
    10 * (d.x + d.y)
  }

  function Octagonal(source: Vec2i, target: Vec2i): nat {
    var d := Delta(source, target);
    10 * (d.x + d.y) + (-6) * Min(d.x, d.y)
  }

  /** No move lowers the estimate by more than the move costs, and both stop cells are rated alike. */
  ghost predicate Consistent(h: Heuristic, dirs: MoveCount, target: Vec2i) {
    && h(Vec2i(target.x - 1, target.y), target) == h(Vec2i(target.x + 1, target.y), target)
    && forall a: Vec2i, i: nat | i < dirs ::
         h(a, target) <= MoveCost(i) + h(Neighbour(a, i), target)
  }

  lemma OctagonalConsistent(dirs: MoveCount, target: Vec2i)
    ensures Consistent(Octagonal, dirs, target)
    ensures forall c | IsStop(target, c) :: Octagonal(c, target) == 10
  {
    forall a: Vec2i, i: nat | i < dirs
      ensures Octagonal(a, target) <= MoveCost(i) + Octagonal(Neighbour(a, i), target)
    {
      OctagonalStep(a, i, target);
    }
  }

  lemma OctagonalAtTarget(c: Vec2i)
    ensures Octagonal(c, c) == 0
  {
  }

  lemma OctagonalStep(a: Vec2i, i: nat, target: Vec2i)
    requires i < 8
    ensures Octagonal(a, target) <= MoveCost(i) + Octagonal(Neighbour(a, i), target)
  {
    var n := Neighbour(a, i);
    var d, e := Delta(a, target), Delta(n, target);
    assert -1 <= d.x - e.x <= 1 && -1 <= d.y - e.y <= 1;
    assert i < 4 ==> d.x == e.x || d.y == e.y;
  }

  /** Manhattan is safe exactly when diagonal moves are off. */
  lemma ManhattanConsistentIffStraight(dirs: MoveCount, target: Vec2i)
    ensures Consistent(Manhattan, dirs, target) <==> dirs == 4
    ensures forall c | IsStop(target, c) :: Manhattan(c, target) == 10
  {
    if dirs == 4 {
      forall a: Vec2i, i: nat | i < dirs
        ensures Manhattan(a, target) <= MoveCost(i) + Manhattan(Neighbour(a, i), target)
      {
      }
    } else {
      // From one row and column beyond the target, the diagonal move saves 20 but costs 14.
      var a := Vec2i(target.x + 1, target.y + 1);
      assert Neighbour(a, 4) == target;
      assert Manhattan(a, target) > MoveCost(4) + Manhattan(Neighbour(a, 4), target);
    }
  }

  /** A consistent estimate never falls along a walk by more than the walk costs. */
  lemma {:induction false} EstimateAlongWalk(h: Heuristic, w: World, dirs: MoveCount, target: Vec2i,
                                             source: Vec2i, p: seq<Vec2i>)
    requires Consistent(h, dirs, target)
    requires IsWalk(w, dirs, source, p)
    ensures h(source, target) <= Cost(p) + h(Last(p), target)
    decreases |p|
  {
    if |p| == 1 {
    } else {
      var q := p[..|p| - 1];
      EstimateAlongWalk(h, w, dirs, target, source, q);
      var i: nat :| i < dirs && Last(p) == Neighbour(Last(q), i);
      EdgeCostIsMoveCost(Last(q), i);
    }
  }
}
