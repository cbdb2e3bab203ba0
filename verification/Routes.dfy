/** Walks spelled out in coordinates, without the table of moves, and what they cost. */
module Routes {
  import opened Grid
  import opened Heuristics

  /** One move: to one of the four cells beside `a`, or to one of the eight around it. */
  ghost predicate OneStep(dirs: MoveCount, a: Vec2i, b: Vec2i) {
    var dx, dy := b.x - a.x, b.y - a.y;
    if dirs == 4 then (dx == 0 && (dy == 1 || dy == -1)) || (dy == 0 && (dx == 1 || dx == -1))
    else -1 <= dx <= 1 && -1 <= dy <= 1 && (dx != 0 || dy != 0)
  }

  /** 14 for a step along a diagonal and 10 for any other. */
  function StepPrice(a: Vec2i, b: Vec2i): nat {
    if a.x != b.x && a.y != b.y then 14 else 10
  }

  function Price(p: seq<Vec2i>): nat {
    if |p| <= 1 then 0 else StepPrice(p[0], p[1]) + Price(p[1..])
  }

  /** The table holds all the moves there are, and no others. */
  lemma AdjacentMeans(dirs: MoveCount, a: Vec2i, b: Vec2i)
    ensures Adjacent(dirs, a, b) <==> OneStep(dirs, a, b)
  {
    if OneStep(dirs, a, b) {
      var i := MoveTo(a, b);
      assert i < dirs && b == Neighbour(a, i);
    }
  }

  /** Which entry of the table leads from `a` to the cell `b` around it. */
  function MoveTo(a: Vec2i, b: Vec2i): (i: nat)
    requires OneStep(8, a, b)
    ensures i < 8 && Neighbour(a, i) == b && (i < 4 <==> OneStep(4, a, b))
  {
    var dx, dy := b.x - a.x, b.y - a.y;
    if dx == 0 then (if dy == 1 then 0 else 2)
    else if dy == 0 then (if dx == 1 then 1 else 3)
    else if dx == dy then (if dx == -1 then 4 else 5)
    else if dx == -1 then 6 else 7
  }

  lemma {:induction false} PriceIsCost(p: seq<Vec2i>)
    ensures Price(p) == Cost(p)
  {
    if |p| <= 1 {
    } else {
      PriceIsCost(p[1..]);
      CostSplit(p, 1);
      assert p[..2][..1] == [p[0]];
      assert Cost(p[..2]) == EdgeCost(p[0], p[1]);
    }
  }

  lemma {:induction false} PriceSnoc(p: seq<Vec2i>, c: Vec2i)
    requires |p| > 0
    ensures Price(p + [c]) == Price(p) + StepPrice(p[|p| - 1], c)
  {
    if |p| == 1 {
      assert (p + [c])[1..] == [c];
    } else {
      assert (p + [c])[1..] == p[1..] + [c];
      PriceSnoc(p[1..], c);
    }
  }

  /** The way back costs the same. */
  lemma {:induction false} PriceBackwards(p: seq<Vec2i>, q: seq<Vec2i>)
    requires |p| == |q| && forall k | 0 <= k < |p| :: q[k] == p[|p| - 1 - k]
    ensures Price(q) == Price(p)
  {
    if |p| <= 1 {
    } else {
      var k := |p| - 1;
      assert q == q[..k] + [p[0]];
      PriceBackwards(p[1..], q[..k]);
      PriceSnoc(q[..k], p[0]);
    }
  }

  /** The moves in the order in which they are tried. */
  lemma TableOfMoves(c: Vec2i)
    ensures Neighbour(c, 0) == Vec2i(c.x, c.y + 1) && Neighbour(c, 1) == Vec2i(c.x + 1, c.y)
    ensures Neighbour(c, 2) == Vec2i(c.x, c.y - 1) && Neighbour(c, 3) == Vec2i(c.x - 1, c.y)
    ensures Neighbour(c, 4) == Vec2i(c.x - 1, c.y - 1) && Neighbour(c, 5) == Vec2i(c.x + 1, c.y + 1)
    ensures Neighbour(c, 6) == Vec2i(c.x - 1, c.y + 1) && Neighbour(c, 7) == Vec2i(c.x + 1, c.y - 1)
  {
  }

  // ---------- the heuristics are exact where nothing is in the way ----------

  /** `p` leads from `a` to `b`, one move at a time, wherever the cells lie. */
  ghost predicate Joins(dirs: MoveCount, a: Vec2i, b: Vec2i, p: seq<Vec2i>) {
    && |p| > 0 && p[0] == a && p[|p| - 1] == b
    && forall i | 0 < i < |p| :: OneStep(dirs, p[i - 1], p[i])
  }

  function Estimate(dirs: MoveCount, a: Vec2i, b: Vec2i): nat {
    if dirs == 4 then Manhattan(a, b) else Octagonal(a, b)
  }

  /** A move towards `b`, along a diagonal as long as both coordinates differ and diagonals are allowed. */
  function Towards(dirs: MoveCount, a: Vec2i, b: Vec2i): (c: Vec2i)
    requires a != b
    ensures OneStep(dirs, a, c) && Estimate(dirs, a, b) == StepPrice(a, c) + Estimate(dirs, c, b)
  {
    var x := if a.x < b.x then a.x + 1 else if a.x > b.x then a.x - 1 else a.x;
    var y := if a.y < b.y then a.y + 1 else if a.y > b.y then a.y - 1 else a.y;
    if dirs == 4 && a.x != b.x then Vec2i(x, a.y) else Vec2i(x, y)
  }

  lemma {:induction false} CheapestJoin(dirs: MoveCount, a: Vec2i, b: Vec2i) returns (p: seq<Vec2i>)
    ensures Joins(dirs, a, b, p) && Price(p) == Estimate(dirs, a, b)
    decreases Estimate(dirs, a, b)
  {
    if a == b {
      p := [a];
    } else {
      var c := Towards(dirs, a, b);
      var q := CheapestJoin(dirs, c, b);
      p := [a] + q;
      assert p[1..] == q;
    }
  }

  lemma {:induction false} NoCheaperJoin(dirs: MoveCount, a: Vec2i, b: Vec2i, p: seq<Vec2i>)
    requires Joins(dirs, a, b, p)
    ensures Estimate(dirs, a, b) <= Price(p)
    decreases |p|
  {
    if |p| > 1 {
      NoCheaperJoin(dirs, p[1], b, p[1..]);
      assert OneStep(dirs, p[0], p[1]);
      StepLowers(dirs, a, p[1], b);
    }
  }

  lemma StepLowers(dirs: MoveCount, a: Vec2i, c: Vec2i, b: Vec2i)
    requires OneStep(dirs, a, c)
    ensures Estimate(dirs, a, b) <= StepPrice(a, c) + Estimate(dirs, c, b)
  {
    AdjacentMeans(dirs, a, c);
    var i: nat :| i < dirs && c == Neighbour(a, i);
    EdgeCostIsMoveCost(a, i);
    if dirs == 4 {
      ManhattanConsistentIffStraight(4, b);
    } else {
      OctagonalConsistent(8, b);
    }
  }

  /** On a grid with nothing in the way the octagonal estimate is the price of a cheapest way with eight moves, and the
      Manhattan estimate with four. */
  lemma EstimatesAreExact(dirs: MoveCount, a: Vec2i, b: Vec2i)
    ensures exists p :: Joins(dirs, a, b, p) && Price(p) == if dirs == 4 then Manhattan(a, b) else Octagonal(a, b)
    ensures forall p | Joins(dirs, a, b, p) :: (if dirs == 4 then Manhattan(a, b) else Octagonal(a, b)) <= Price(p)
  {
    var p := CheapestJoin(dirs, a, b);
    forall p | Joins(dirs, a, b, p)
      ensures Estimate(dirs, a, b) <= Price(p)
    {
      NoCheaperJoin(dirs, a, b, p);
    }
  }
}
