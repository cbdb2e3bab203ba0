/** When keeping the path with the fewest cells keeps a cheapest one. */
module BestTargets {
  import opened Grid
  import opened Heuristics
  import opened SearchState
  import opened AStar

  lemma {:induction false} CostPerMove(p: seq<Vec2i>)
    requires |p| > 0
    ensures 10 * (|p| - 1) <= Cost(p) <= 14 * (|p| - 1)
    decreases |p|
  {
    if |p| == 1 {
    } else {
      CostPerMove(p[..|p| - 1]);
    }
  }

  /** The target below the cell reached by making the same move twice. */
  function TargetAfter(start: Vec2i, i: nat): Vec2i
    requires i < 8
  {
    Add(Neighbour(Neighbour(start, i), i), Vec2i(1, 0))
  }

  /** The walk there, as the path handed back for it. */
  function TwoMovePath(start: Vec2i, i: nat): seq<Vec2i>
    requires i < 8
  {
    [TargetAfter(start, i), Neighbour(Neighbour(start, i), i), Neighbour(start, i), start]
  }

  predicate FreeAlong(w: World, start: Vec2i, i: nat)
    requires i < 8
  {
    !Collides(w, Neighbour(start, i)) && !Collides(w, Neighbour(Neighbour(start, i), i))
  }

  lemma StopEstimates(start: Vec2i)
    ensures forall s | IsStop(TargetAfter(start, 5), s) :: Octagonal(start, s) >= 28
    ensures forall s | IsStop(TargetAfter(start, 0), s) :: Octagonal(start, s) >= 20
    ensures IsStop(TargetAfter(start, 5), Neighbour(Neighbour(start, 5), 5))
    ensures IsStop(TargetAfter(start, 0), Neighbour(Neighbour(start, 0), 0))
  {
  }

  function TwoMoveWalk(a: Vec2i, i: nat, j: nat): seq<Vec2i>
    requires i < 8 && j < 8
  {
    [a, Neighbour(a, i), Neighbour(Neighbour(a, i), j)]
  }

  lemma TwoMoves(w: World, dirs: MoveCount, a: Vec2i, i: nat, j: nat)
    requires i < dirs && j < dirs
    requires !Collides(w, Neighbour(a, i)) && !Collides(w, Neighbour(Neighbour(a, i), j))
    ensures IsWalk(w, dirs, a, TwoMoveWalk(a, i, j))
    ensures Cost(TwoMoveWalk(a, i, j)) == MoveCost(i) + MoveCost(j)
  {
    hide Collides;
    var p, b := TwoMoveWalk(a, i, j), Neighbour(a, i);
    EdgeCostIsMoveCost(a, i);
    EdgeCostIsMoveCost(b, j);
    assert p[..2] == [a, b] && p[..2][..1] == [a];
    hide Neighbour;
    assert Cost([a, b]) == Cost([a]) + EdgeCost(a, b);
    assert Adjacent(dirs, a, b) && Adjacent(dirs, b, p[2]);
  }

  /** A walk to a stop cell that costs no more than the estimates of both stop cells fixes the cost of every answer, and
      bounds its number of cells. */
  lemma AnswerCost(pb: Problem, path: seq<Vec2i>, q: seq<Vec2i>)
    requires pb.heur == Octagonal && IsAnswer(pb, path, true)
    requires IsWalk(pb.world, pb.dirs, pb.source, q) && IsStop(pb.target, Last(q))
    requires forall s | IsStop(pb.target, s) :: Cost(q) <= Octagonal(pb.source, s)
    ensures Cost(WalkOf(path)) == Cost(q)
    ensures |path| >= 2 && 10 * (|path| - 2) <= Cost(q) <= 14 * (|path| - 2)
  {
    hide Collides, Adjacent, Octagonal;
    var f := WalkOf(path);
    OctagonalConsistent(pb.dirs, pb.target);
    OctagonalConsistent(pb.dirs, Last(f));
    EstimateAlongWalk(Octagonal, pb.world, pb.dirs, Last(f), pb.source, f);
    assert Last(f) == path[1];
    OctagonalAtTarget(Last(f));
    CostPerMove(f);
  }

  /** Two free moves the same way are an answer for the target beyond them. */
  lemma TwoMoveAnswer(w: World, start: Vec2i, i: nat)
    requires i in {0, 5} && FreeAlong(w, start, i)
    ensures WalkOf(TwoMovePath(start, i)) == TwoMoveWalk(start, i, i)
    ensures IsAnswer(Problem(w, 8, start, TargetAfter(start, i), Octagonal), TwoMovePath(start, i), true)
  {
    var q, path, target := TwoMoveWalk(start, i, i), TwoMovePath(start, i), TargetAfter(start, i);
    BackwardsOnce(start, i);
    StopEstimates(start);
    TwoMoves(w, 8, start, i, i);
    hide Collides, Adjacent, Neighbour, Octagonal, TwoMoveWalk, WalkOf, Cost, IsWalk;
    forall p | IsWalk(w, 8, start, p) && IsStop(target, Last(p))
      ensures Cost(WalkOf(path)) <= Cost(p)
    {
      OctagonalConsistent(8, Last(p));
      EstimateAlongWalk(Octagonal, w, 8, Last(p), start, p);
      OctagonalAtTarget(Last(p));
    }
  }

  lemma BackwardsOnce(start: Vec2i, i: nat)
    requires i < 8
    ensures WalkOf(TwoMovePath(start, i)) == TwoMoveWalk(start, i, i)
  {
    hide Neighbour, TargetAfter;
    var path := TwoMovePath(start, i);
    assert path[1..] == [path[1], path[2], path[3]];
  }

  /** With diagonal moves the path with the fewest cells need not be a cheapest one: wherever two diagonal moves and two
      straight ones are free, a target beyond the former and one beyond the latter tie on cells, so whichever is listed
      first wins although it costs 28 and the other 20. Both answers are exhibited, and no other answers fare better. */
  lemma ShortestDiagonalNotCheapest(w: World, start: Vec2i)
    requires FreeAlong(w, start, 0) && FreeAlong(w, start, 5)
    ensures var endpoints, far, near := [TargetAfter(start, 5), TargetAfter(start, 0)], TwoMovePath(start, 5), TwoMovePath(start, 0);
            && IsRun(w, 8, Octagonal, start, endpoints, [far, near], [true, true], 0)
            && Cost(WalkOf(far)) == 28 && Cost(WalkOf(near)) == 20
            && !IsCheapest(w, 8, start, endpoints, far, 0)
  {
    TwoMoveAnswer(w, start, 0);
    TwoMoveAnswer(w, start, 5);
    TwoMoves(w, 8, start, 0, 0);
    TwoMoves(w, 8, start, 5, 5);
    StopEstimates(start);
    hide Collides, IsAnswer, IsWalk, Cost, Octagonal, WalkOf, Neighbour, FreeAlong;
    var targets := [TargetAfter(start, 5), TargetAfter(start, 0)];
    assert IsStop(targets[1], Last(TwoMoveWalk(start, 0, 0)));
  }

  /** The same for any answers a search may give for these targets. */
  lemma AnyDiagonalAnswers(w: World, start: Vec2i, far: seq<Vec2i>, near: seq<Vec2i>)
    requires FreeAlong(w, start, 0) && FreeAlong(w, start, 5)
    requires IsAnswer(Problem(w, 8, start, TargetAfter(start, 5), Octagonal), far, true)
    requires IsAnswer(Problem(w, 8, start, TargetAfter(start, 0), Octagonal), near, true)
    ensures |far| == |near| == 4 && Cost(WalkOf(far)) == 28 && Cost(WalkOf(near)) == 20
  {
    hide Collides, IsAnswer, IsWalk, Cost, Octagonal;
    TwoMoves(w, 8, start, 0, 0);
    TwoMoves(w, 8, start, 5, 5);
    StopEstimates(start);
    AnswerCost(Problem(w, 8, start, TargetAfter(start, 5), Octagonal), far, TwoMoveWalk(start, 5, 5));
    AnswerCost(Problem(w, 8, start, TargetAfter(start, 0), Octagonal), near, TwoMoveWalk(start, 0, 0));
  }

  /** One input where this happens: an empty grid of five rows and columns, from its second row and column. */
  lemma EmptyGridIsFree(w: World, start: Vec2i)
    requires w == World(Vec2i(5, 5), [], [], []) && start == Vec2i(1, 1)
    ensures FreeAlong(w, start, 0) && FreeAlong(w, start, 5)
    ensures TargetAfter(start, 5) == Vec2i(4, 3) && TargetAfter(start, 0) == Vec2i(2, 3)
  {
  }

  /** Every found path that is kept is a cheapest one. */
  ghost predicate KeepsCheapest(dirs: MoveCount) {
    forall w, start, endpoints, paths, found, chosen |
      IsRun(w, dirs, Octagonal, start, endpoints, paths, found, chosen) && found[chosen] ::
      paths[chosen] != [] && IsCheapest(w, dirs, start, endpoints, paths[chosen], chosen)
  }

  /** Keeping the path with the fewest cells keeps a cheapest one exactly when all moves are straight. */
  lemma CheapestIffStraight(dirs: MoveCount)
    ensures KeepsCheapest(dirs) <==> dirs == 4
  {
    hide IsRun, IsCheapest;
    if dirs == 4 {
      StraightKeepsCheapest();
    } else {
      DiagonalDoesNot();
    }
  }

  lemma StraightKeepsCheapest()
    ensures KeepsCheapest(4)
  {
    hide IsCheapest;
    forall w, start, endpoints, paths, found, chosen |
      IsRun(w, 4, Octagonal, start, endpoints, paths, found, chosen) && found[chosen]
      ensures paths[chosen] != [] && IsCheapest(w, 4, start, endpoints, paths[chosen], chosen)
    {
      hide IsAnswer, IsShortest;
      forall k | 0 <= k < |endpoints|
        ensures Consistent(Octagonal, 4, endpoints[k])
      {
        OctagonalConsistent(4, endpoints[k]);
      }
      ShortestIsCheapest(w, Octagonal, start, endpoints, paths, found, chosen);
    }
  }

  lemma DiagonalDoesNot()
    ensures !KeepsCheapest(8)
  {
    var w, start := World(Vec2i(5, 5), [], [], []), Vec2i(1, 1);
    EmptyGridIsFree(w, start);
    ShortestDiagonalNotCheapest(w, start);
    hide *;
    OneRunRefutes(8, w, start, [TargetAfter(start, 5), TargetAfter(start, 0)],
                  [TwoMovePath(start, 5), TwoMovePath(start, 0)], [true, true], 0);
  }

  lemma OneRunRefutes(dirs: MoveCount, w: World, start: Vec2i, endpoints: seq<Vec2i>,
                      paths: seq<seq<Vec2i>>, found: seq<bool>, chosen: nat)
    requires IsRun(w, dirs, Octagonal, start, endpoints, paths, found, chosen) && found[chosen] && paths[chosen] != []
    requires !IsCheapest(w, dirs, start, endpoints, paths[chosen], chosen)
    ensures !KeepsCheapest(dirs)
  {
    hide IsCheapest, IsRun;
  }

  // ---------- targets that cannot be reached ----------

  /** The path kept was found exactly when some target within reach has a path with fewer cells than every list handed back
      for a target out of reach, or with as few and listed earlier; so it is when all targets are within reach. */
  lemma KeptIsFoundIff(w: World, dirs: MoveCount, h: Heuristic, start: Vec2i, endpoints: seq<Vec2i>,
                       paths: seq<seq<Vec2i>>, found: seq<bool>, chosen: nat)
    requires IsRun(w, dirs, h, start, endpoints, paths, found, chosen)
    ensures found[chosen] <==>
              exists k :: 0 <= k < |endpoints| && StopReachable(Problem(w, dirs, start, endpoints[k], h))
                          && forall j | 0 <= j < |endpoints| && !StopReachable(Problem(w, dirs, start, endpoints[j], h)) ::
                               |paths[k]| < |paths[j]| || (|paths[k]| == |paths[j]| && k < j)
    ensures (forall k | 0 <= k < |endpoints| :: StopReachable(Problem(w, dirs, start, endpoints[k], h))) ==> found[chosen]
  {
    hide StopReachable, IsAnswer, Consistent, IsCheapest;
    KeptIsCheapest(w, dirs, h, start, endpoints, paths, found, chosen);
    assert found[chosen] <==> StopReachable(Problem(w, dirs, start, endpoints[chosen], h));
  }

  predicate Enclosed(w: World, dirs: MoveCount, start: Vec2i) {
    forall i: nat | i < dirs :: Collides(w, Neighbour(start, i))
  }

  lemma OnlyWalk(w: World, dirs: MoveCount, start: Vec2i, p: seq<Vec2i>)
    requires Enclosed(w, dirs, start)
    ensures IsWalk(w, dirs, start, p) <==> p == [start]
  {
    hide Collides, Neighbour;
    if IsWalk(w, dirs, start, p) && |p| > 1 {
      var i := MoveBetween(w, dirs, start, p, 1);
    }
  }

  /** A search that finds nothing still hands back a list, and that list competes: from a start with no free neighbour a
      target out of reach, listed before one that is at hand, ties with it and is kept, in every run. */
  lemma UnreachableIsKept(w: World, dirs: MoveCount, h: Heuristic, start: Vec2i, off: Vec2i, near: Vec2i)
    requires Enclosed(w, dirs, start) && !IsStop(off, start) && IsStop(near, start)
    ensures forall unset :: IsRun(w, dirs, h, start, [off, near], [[unset, start], [near, start]], [false, true], 0)
    ensures forall paths, found, chosen | IsRun(w, dirs, h, start, [off, near], paths, found, chosen) ::
              chosen == 0 && !found[chosen] && StopReachable(Problem(w, dirs, start, near, h))
  {
    forall p
      ensures IsWalk(w, dirs, start, p) <==> p == [start]
    {
      OnlyWalk(w, dirs, start, p);
    }
    hide IsWalk, Enclosed, IsRun;
    forall unset
      ensures IsRun(w, dirs, h, start, [off, near], [[unset, start], [near, start]], [false, true], 0)
    {
      EnclosedRun(w, dirs, h, start, off, near, unset);
    }
    forall paths, found, chosen | IsRun(w, dirs, h, start, [off, near], paths, found, chosen)
      ensures chosen == 0 && !found[chosen] && StopReachable(Problem(w, dirs, start, near, h))
    {
      EnclosedRuns(w, dirs, h, start, off, near, paths, found, chosen);
    }
  }

  lemma EnclosedRun(w: World, dirs: MoveCount, h: Heuristic, start: Vec2i, off: Vec2i, near: Vec2i, unset: Vec2i)
    requires !IsStop(off, start) && IsStop(near, start)
    requires forall p :: IsWalk(w, dirs, start, p) <==> p == [start]
    ensures IsRun(w, dirs, h, start, [off, near], [[unset, start], [near, start]], [false, true], 0)
  {
    hide IsWalk, WalkOf;
    OnlyCell(unset, start);
    OnlyCell(near, start);
    assert IsAnswer(Problem(w, dirs, start, off, h), [unset, start], false);
    assert IsAnswer(Problem(w, dirs, start, near, h), [near, start], true);
  }

  lemma OnlyCell(head: Vec2i, start: Vec2i)
    ensures WalkOf([head, start]) == [start]
  {
    assert [head, start][1..] == [start];
  }

  lemma EnclosedRuns(w: World, dirs: MoveCount, h: Heuristic, start: Vec2i, off: Vec2i, near: Vec2i,
                     paths: seq<seq<Vec2i>>, found: seq<bool>, chosen: nat)
    requires !IsStop(off, start) && IsStop(near, start)
    requires forall p :: IsWalk(w, dirs, start, p) <==> p == [start]
    requires IsRun(w, dirs, h, start, [off, near], paths, found, chosen)
    ensures chosen == 0 && !found[chosen] && StopReachable(Problem(w, dirs, start, near, h))
  {
    hide IsWalk, IsAnswer;
    assert IsAnswer(Problem(w, dirs, start, [off, near][0], h), paths[0], found[0]);
    assert IsAnswer(Problem(w, dirs, start, [off, near][1], h), paths[1], found[1]);
    EnclosedAnswer(Problem(w, dirs, start, off, h), paths[0], found[0]);
    EnclosedAnswer(Problem(w, dirs, start, near, h), paths[1], found[1]);
  }

  lemma EnclosedAnswer(pb: Problem, path: seq<Vec2i>, found: bool)
    requires IsAnswer(pb, path, found) && forall p :: IsWalk(pb.world, pb.dirs, pb.source, p) <==> p == [pb.source]
    ensures |path| == 2 && (found <==> IsStop(pb.target, pb.source)) && (found <==> StopReachable(pb))
  {
    FoundIffReachable(pb, path, found);
    hide IsWalk;
    assert |WalkOf(path)| == |path| - 1;
    assert IsWalk(pb.world, pb.dirs, pb.source, [pb.source]);
  }

  /** From a start that is a stop cell of some target, what decides is known beforehand: the path kept was found exactly
      when some neighbour of the start is free or the first target is one of those at hand. */
  lemma KeptFromStop(w: World, dirs: MoveCount, h: Heuristic, start: Vec2i, endpoints: seq<Vec2i>,
                     paths: seq<seq<Vec2i>>, found: seq<bool>, chosen: nat)
    requires IsRun(w, dirs, h, start, endpoints, paths, found, chosen)
    requires exists k :: 0 <= k < |endpoints| && IsStop(endpoints[k], start)
    ensures found[chosen] <==> !Enclosed(w, dirs, start) || IsStop(endpoints[0], start)
  {
    hide IsWalk, Enclosed, IsAnswer;
    forall k | 0 <= k < |endpoints|
      ensures SizesFromStop(w, dirs, start, endpoints[k], paths[k], found[k])
    {
      AnswerFromStop(Problem(w, dirs, start, endpoints[k], h), paths[k], found[k]);
    }
  }

  /** Two cells are handed back for a target at hand, and more for one out of reach unless nothing else is within reach. */
  ghost predicate SizesFromStop(w: World, dirs: MoveCount, start: Vec2i, target: Vec2i, path: seq<Vec2i>, found: bool) {
    && (IsStop(target, start) ==> found && |path| == 2)
    && (!found && !Enclosed(w, dirs, start) ==> |path| > 2)
    && (Enclosed(w, dirs, start) ==> |path| == 2 && (found <==> IsStop(target, start)))
  }

  lemma AnswerFromStop(pb: Problem, path: seq<Vec2i>, found: bool)
    requires IsAnswer(pb, path, found)
    ensures SizesFromStop(pb.world, pb.dirs, pb.source, pb.target, path, found)
  {
    hide Enclosed, IsWalk;
    StandStill(pb.world, pb.dirs, pb.source);
    if Enclosed(pb.world, pb.dirs, pb.source) {
      forall p
        ensures IsWalk(pb.world, pb.dirs, pb.source, p) <==> p == [pb.source]
      {
        OnlyWalk(pb.world, pb.dirs, pb.source, p);
      }
      EnclosedAnswer(pb, path, found);
    } else if !found {
      var c := StepOut(pb.world, pb.dirs, pb.source);
      assert Last([pb.source, c]) == c;
      assert path[1] != pb.source;
      WalkLeaves(pb.world, pb.dirs, pb.source, path);
    }
  }

  lemma StandStill(w: World, dirs: MoveCount, start: Vec2i)
    ensures IsWalk(w, dirs, start, [start]) && Last([start]) == start
  {
  }

  /** A free neighbour is a walk away. */
  lemma StepOut(w: World, dirs: MoveCount, start: Vec2i) returns (c: Vec2i)
    requires !Enclosed(w, dirs, start)
    ensures c != start && IsWalk(w, dirs, start, [start, c])
  {
    hide Collides;
    var i: nat :| i < dirs && !Collides(w, Neighbour(start, i));
    c := Neighbour(start, i);
    MovesAway(start, i);
    EdgeCostIsMoveCost(start, i);
  }

  lemma WalkLeaves(w: World, dirs: MoveCount, start: Vec2i, path: seq<Vec2i>)
    requires |path| >= 2 && IsWalk(w, dirs, start, WalkOf(path)) && path[1] != start
    ensures |path| > 2
  {
    assert WalkOf(path)[|path| - 2] == path[1];
  }

  /** One input where this happens: a grid of a single cell, and targets (9, 9) and (1, 0). */
  lemma SingleCellIsEnclosed(w: World, dirs: MoveCount)
    requires w == World(Vec2i(1, 1), [], [], [])
    ensures Enclosed(w, dirs, Vec2i(0, 0)) && !IsStop(Vec2i(9, 9), Vec2i(0, 0)) && IsStop(Vec2i(1, 0), Vec2i(0, 0))
  {
    hide Neighbour;
    forall i: nat | i < dirs
      ensures Collides(w, Neighbour(Vec2i(0, 0), i))
    {
      MovesAway(Vec2i(0, 0), i);
    }
  }

  lemma MovesAway(c: Vec2i, i: nat)
    requires i < 8
    ensures Neighbour(c, i) != c
  {
  }
}
