/** The planner as it runs: nodes on the heap, lists of nodes updated in place. */
module AStar {
  import opened Grid
  import opened Heuristics
  import opened SearchState
  import opened Routes

  class Node {
    var G: nat
    var H: nat
    var coordinates: Vec2i
    var parent: Node?

    constructor (coordinates: Vec2i, parent: Node?)
      ensures this.coordinates == coordinates && this.parent == parent && G == 0 && H == 0
    {
      this.parent := parent;
      this.coordinates := coordinates;
      G, H := 0, 0;
    }

    function GetScore(): nat
      reads this
    {
      G + H
    }
  }

  /** Where nodes come from and go to. Only a live node can be deleted, and what it held cannot be relied on afterwards. */
  class Heap {
    ghost var live: set<Node>

    constructor ()
      ensures live == {}
    {
      live := {};
    }

    method New(coordinates: Vec2i, parent: Node?) returns (n: Node)
      modifies this
      ensures fresh(n) && live == old(live) + {n}
      ensures n.coordinates == coordinates && n.parent == parent && n.G == 0 && n.H == 0
    {
      n := new Node(coordinates, parent);
      live := live + {n};
    }

    method Delete(n: Node)
      requires n in live
      modifies this, n
      ensures live == old(live) - {n}
    {
      n.G, n.H, n.coordinates, n.parent := *, *, *, *;
      live := live - {n};
    }
  }

  /** Node `n` holds record `r`; parents are given by their place in the closed list. */
  ghost predicate ShowsOne(n: Node, closed: seq<Node>, r: Rec)
    reads n
  {
    && n.coordinates == r.c && n.G == r.g && n.H == r.h
    && n.parent == if 0 <= r.parent < |closed| then closed[r.parent] else null
  }

  ghost predicate Shows(nodes: seq<Node>, closed: seq<Node>, rs: seq<Rec>)
    reads nodes
  {
    && |nodes| == |rs|
    && forall k | 0 <= k < |nodes| :: ShowsOne(nodes[k], closed, rs[k])
  }

  ghost predicate AllDistinct(nodes: seq<Node>) {
    forall i, j | 0 <= i < j < |nodes| :: nodes[i] != nodes[j]
  }

  ghost function Elements(nodes: seq<Node>): set<Node> {
    set n | n in nodes
  }

  lemma OneElement(n: Node)
    ensures Elements([n]) == {n} && Elements([]) == {}
  {
  }

  lemma ShownCell(nodes: seq<Node>, closed: seq<Node>, rs: seq<Rec>, k: nat)
    requires Shows(nodes, closed, rs) && k < |nodes|
    ensures nodes[k].coordinates == rs[k].c
  {
  }

  /** Records of distinct cells are held by distinct nodes. */
  lemma ApartNodes(pb: Problem, open: seq<Node>, closed: seq<Node>, openR: seq<Rec>, closedR: seq<Rec>)
    requires Shows(open, closed, openR) && Shows(closed, closed, closedR) && Wf(pb, openR, closedR)
    ensures AllDistinct(open) && AllDistinct(closed)
    ensures Elements(open) !! Elements(closed)
  {
  }

  function Reverse(p: seq<Vec2i>): (r: seq<Vec2i>)
    ensures |r| == |p|
    ensures forall k | 0 <= k < |p| :: r[k] == p[|p| - 1 - k]
  {
    if p == [] then [] else [p[|p| - 1]] + Reverse(p[..|p| - 1])
  }

  /** The walk a returned path stands for: the path lists the target, then the walk backwards. */
  function WalkOf(path: seq<Vec2i>): seq<Vec2i>
    requires |path| > 0
  {
    Reverse(path[1..])
  }

  /** What a search may hand back. A found path is the target followed by a walk, read backwards, from the
      source to a stop cell, and no walk to a stop cell is cheaper; it is the source alone if that is a stop cell. Otherwise
      no stop cell can be reached, and what follows the path's first cell is a walk to some other cell, read backwards, which
      leaves the source if any walk does. */
  ghost predicate IsAnswer(pb: Problem, path: seq<Vec2i>, found: bool) {
    if found then
      && |path| >= 2 && path[0] == pb.target && IsStop(pb.target, path[1])
      && IsWalk(pb.world, pb.dirs, pb.source, WalkOf(path))
      && (IsStop(pb.target, pb.source) ==> |path| == 2)
      && (Consistent(pb.heur, pb.dirs, pb.target) ==>
            forall p | IsWalk(pb.world, pb.dirs, pb.source, p) && IsStop(pb.target, Last(p)) ::
              Cost(WalkOf(path)) <= Cost(p))
    else
      && |path| >= 2 && IsWalk(pb.world, pb.dirs, pb.source, WalkOf(path))
      && (forall p | IsWalk(pb.world, pb.dirs, pb.source, p) :: !IsStop(pb.target, Last(p)))
      && (path[1] == pb.source ==> forall p | IsWalk(pb.world, pb.dirs, pb.source, p) :: Last(p) == pb.source)
  }

  /** Which cells a search has closed, and at what costs: true distances under a consistent heuristic. Without a stop cell
      they are all that can be reached, and the path traces one whose distance and estimate together no other exceeds.
      Otherwise they include the path's cells behind the stop cell, every cell whose distance and estimate together stay
      below those of the stop cell, and no cell for which they exceed them. */
  ghost predicate IsClosing(pb: Problem, path: seq<Vec2i>, found: bool, settled: map<Vec2i, nat>)
    requires |path| >= 2
  {
    && (forall c | c in settled :: !IsStop(pb.target, c))
    && (Consistent(pb.heur, pb.dirs, pb.target) ==>
          forall c | c in settled :: IsDistance(pb.world, pb.dirs, pb.source, c, settled[c]))
    && (!found ==> forall c :: c in settled <==> Reachable(pb.world, pb.dirs, pb.source, c))
    && (!found ==> path[1] in settled && Cost(WalkOf(path)) == settled[path[1]])
    && (!found && Consistent(pb.heur, pb.dirs, pb.target) ==>
          forall c | c in settled :: settled[c] + pb.heur(c, pb.target) <= settled[path[1]] + pb.heur(path[1], pb.target))
    && (found ==> forall k | 2 <= k < |path| :: path[k] in settled)
    && (found && Consistent(pb.heur, pb.dirs, pb.target) ==>
          var full := Cost(WalkOf(path)) + pb.heur(path[1], pb.target);
          && (forall p | IsWalk(pb.world, pb.dirs, pb.source, p) && Cost(p) + pb.heur(Last(p), pb.target) < full ::
                Last(p) in settled)
          && forall c | c in settled :: settled[c] + pb.heur(c, pb.target) <= full)
  }

  ghost predicate StopReachable(pb: Problem) {
    exists p :: IsWalk(pb.world, pb.dirs, pb.source, p) && IsStop(pb.target, Last(p))
  }

  /** No path before the `j`-th has as many cells as it. */
  ghost predicate IsFirst(paths: seq<seq<Vec2i>>, j: nat) {
    j < |paths| && forall i | 0 <= i < j :: |paths[i]| != |paths[j]|
  }

  /** The `chosen` path has fewer cells than those before it and no more than those after it. */
  ghost predicate IsShortest(paths: seq<seq<Vec2i>>, chosen: nat) {
    && chosen < |paths|
    && forall j | 0 <= j < |paths| :: |paths[chosen]| <= |paths[j]| && (j < chosen ==> |paths[chosen]| < |paths[j]|)
  }

  /** The ordered map of the search for the best target: each size leads to the first path of that size. */
  ghost predicate IsTable(scored: map<nat, seq<Vec2i>>, paths: seq<seq<Vec2i>>) {
    && (forall j | 0 <= j < |paths| :: |paths[j]| in scored)
    && (forall n | n in scored :: exists j: nat :: IsFirst(paths, j) && scored[n] == paths[j] && |paths[j]| == n)
  }

  lemma EmptyTable()
    ensures IsTable(map[], [])
  {
  }

  /** Inserting never replaces a path already stored for the same size. */
  lemma TableInsert(scored: map<nat, seq<Vec2i>>, paths: seq<seq<Vec2i>>, path: seq<Vec2i>)
    requires IsTable(scored, paths)
    ensures IsTable(if |path| in scored then scored else scored[|path| := path], paths + [path])
  {
    var scored' := if |path| in scored then scored else scored[|path| := path];
    forall n | n in scored'
      ensures exists j: nat :: IsFirst(paths + [path], j) && scored'[n] == (paths + [path])[j] && |(paths + [path])[j]| == n
    {
      if n in scored {
        var j: nat :| IsFirst(paths, j) && scored[n] == paths[j] && |paths[j]| == n;
        assert IsFirst(paths + [path], j);
      } else {
        assert IsFirst(paths + [path], |paths|);
      }
    }
  }

  lemma TableNotEmpty(scored: map<nat, seq<Vec2i>>, paths: seq<seq<Vec2i>>)
    requires IsTable(scored, paths) && paths != []
    ensures scored != map[]
  {
    assert |paths[0]| in scored;
  }

  lemma TableFront(scored: map<nat, seq<Vec2i>>, paths: seq<seq<Vec2i>>, least: nat) returns (chosen: nat)
    requires IsTable(scored, paths) && least in scored && forall n | n in scored :: least <= n
    ensures IsShortest(paths, chosen) && scored[least] == paths[chosen]
  {
    chosen :| IsFirst(paths, chosen) && scored[least] == paths[chosen] && |paths[chosen]| == least;
  }

  class Generator {
    var heuristic: Heuristic
    var walls: seq<Vec2i>
    var stall: seq<Vec2i>
    var chargingPile: seq<Vec2i>
    var worldSize: Vec2i
    var directions: MoveCount

    constructor (worldSize: Vec2i)
      ensures directions == 4 && heuristic == Manhattan
      ensures GetWorld() == World(worldSize, [], [], [])
    {
      this.worldSize := worldSize;
      walls, stall, chargingPile := [], [], [];
      directions, heuristic := 4, Manhattan;
    }

    ghost function GetWorld(): World
      reads this
    {
      World(worldSize, walls, stall, chargingPile)
    }

    ghost function GetProblem(source: Vec2i, target: Vec2i): Problem
      reads this
    {
      Problem(GetWorld(), directions, source, target, heuristic)
    }

    method SetDiagonalMovement(enable: bool)
      modifies `directions
      ensures directions == if enable then 8 else 4
    {
      directions := if enable then 8 else 4;
    }

    method SetHeuristic(h: Heuristic)
      modifies `heuristic
      ensures heuristic == h
    {
      heuristic := h;
    }

    predicate DetectCollision(c: Vec2i)
      reads this
      ensures DetectCollision(c) == Collides(GetWorld(), c)
    {
      || c.x < 0 || c.x >= worldSize.x
      || c.y < 0 || c.y >= worldSize.y
      || c in walls
      || c in stall
      || c in chargingPile
    }

    /** A cell of the grid on which nothing stands. */
    ghost predicate IsFree(c: Vec2i)
      reads this
    {
      && 0 <= c.x < worldSize.x && 0 <= c.y < worldSize.y
      && c !in walls && c !in stall && c !in chargingPile
    }

    /** Read from its end, `p` leads from `source` over free cells, one move at a time. */
    ghost predicate LeadsFrom(source: Vec2i, p: seq<Vec2i>)
      reads this
    {
      && |p| > 0 && p[|p| - 1] == source
      && forall k | 0 <= k < |p| - 1 :: IsFree(p[k]) && OneStep(directions, p[k + 1], p[k])
    }

    ghost predicate IsBeside(target: Vec2i, c: Vec2i) {
      c.y == target.y && (c.x == target.x - 1 || c.x == target.x + 1)
    }

    /** What the list handed back is, in the generator's own fields: the target, and then a cheapest of all ways from
        `source` to a cell one row above or below it; or there is no such way. */
    ghost predicate IsRightList(source: Vec2i, target: Vec2i, path: seq<Vec2i>, found: bool)
      reads this
    {
      if found then
        && |path| >= 2 && path[0] == target && IsBeside(target, path[1]) && LeadsFrom(source, path[1..])
        && (Consistent(heuristic, directions, target) ==>
              forall p | LeadsFrom(source, p) && IsBeside(target, p[0]) :: Price(path[1..]) <= Price(p))
      else
        forall p | LeadsFrom(source, p) :: !IsBeside(target, p[0])
    }

    lemma LeadsIsWalk(source: Vec2i, p: seq<Vec2i>)
      ensures LeadsFrom(source, p) <==> |p| > 0 && IsWalk(GetWorld(), directions, source, Reverse(p))
      ensures Price(p) == Cost(Reverse(p))
      ensures |p| > 0 ==> Last(Reverse(p)) == p[0]
    {
      hide Adjacent, OneStep, Price, Cost, Reverse;
      var q := Reverse(p);
      PriceBackwards(p, q);
      PriceIsCost(q);
      forall k | 0 <= k < |p| - 1
        ensures Adjacent(directions, p[k + 1], p[k]) <==> OneStep(directions, p[k + 1], p[k])
      {
        AdjacentMeans(directions, p[k + 1], p[k]);
      }
      LeadsPointwise(source, p, q);
    }

    lemma LeadsPointwise(source: Vec2i, p: seq<Vec2i>, q: seq<Vec2i>)
      requires |p| == |q| && forall k | 0 <= k < |p| :: q[k] == p[|p| - 1 - k]
      requires forall k | 0 <= k < |p| - 1 :: Adjacent(directions, p[k + 1], p[k]) <==> OneStep(directions, p[k + 1], p[k])
      ensures LeadsFrom(source, p) <==> |p| > 0 && IsWalk(GetWorld(), directions, source, q)
    {
      hide Adjacent, OneStep;
      if |p| > 0 && IsWalk(GetWorld(), directions, source, q) {
        forall k | 0 <= k < |p| - 1
          ensures IsFree(p[k]) && OneStep(directions, p[k + 1], p[k])
        {
          var i := |p| - 1 - k;
          assert Adjacent(directions, q[i - 1], q[i]) && !Collides(GetWorld(), q[i]);
        }
      }
      if LeadsFrom(source, p) {
        forall i | 0 < i < |q|
          ensures Adjacent(directions, q[i - 1], q[i]) && !Collides(GetWorld(), q[i])
        {
          var k := |p| - 1 - i;
          assert IsFree(p[k]) && OneStep(directions, p[k + 1], p[k]);
        }
      }
    }

    /** An answer, spelled out. */
    lemma AnswerSpelledOut(source: Vec2i, target: Vec2i, path: seq<Vec2i>, found: bool)
      requires IsAnswer(GetProblem(source, target), path, found)
      ensures IsRightList(source, target, path, found)
    {
      hide IsWalk, Price, Cost, Reverse, Consistent, LeadsFrom;
      forall p
        ensures LeadsFrom(source, p) ==> |p| > 0 && IsWalk(GetWorld(), directions, source, Reverse(p))
        ensures Price(p) == Cost(Reverse(p))
        ensures |p| > 0 ==> Last(Reverse(p)) == p[0]
      {
        LeadsIsWalk(source, p);
      }
      if found {
        LeadsIsWalk(source, path[1..]);
      }
    }

    /** No way to any target costs less than the list kept, and none to a target listed before it costs as little. */
    ghost predicate IsCheapestList(start: Vec2i, endpoints: seq<Vec2i>, best: seq<Vec2i>, chosen: nat)
      requires best != []
      reads this
    {
      forall k, p | 0 <= k < |endpoints| && LeadsFrom(start, p) && IsBeside(endpoints[k], p[0]) ::
        Price(best[1..]) <= Price(p) && (k < chosen ==> Price(best[1..]) < Price(p))
    }

    lemma CheapestSpelledOut(start: Vec2i, endpoints: seq<Vec2i>, best: seq<Vec2i>, chosen: nat)
      requires best != [] && directions == 4 && IsCheapest(GetWorld(), 4, start, endpoints, best, chosen)
      ensures IsCheapestList(start, endpoints, best, chosen)
    {
      hide IsWalk, Price, Cost, Reverse, LeadsFrom;
      LeadsIsWalk(start, best[1..]);
      forall k, p | 0 <= k < |endpoints| && LeadsFrom(start, p) && |p| > 0 && IsBeside(endpoints[k], p[0])
        ensures Price(best[1..]) <= Price(p) && (k < chosen ==> Price(best[1..]) < Price(p))
      {
        LeadsIsWalk(start, p);
      }
      forall p | LeadsFrom(start, p)
        ensures |p| > 0
      {
        LeadsIsWalk(start, p);
      }
    }

    /** The first node of the list at cell `c`, if any. */
    method FindNodeOnList(nodes: seq<Node>, c: Vec2i) returns (found: Node?, ghost at: nat)
      ensures found == null ==> forall n | n in nodes :: n.coordinates != c
      ensures found != null ==>
                && at < |nodes| && nodes[at] == found && found.coordinates == c
                && forall j | 0 <= j < at :: nodes[j].coordinates != c
    {
      at := 0;
      for k := 0 to |nodes|
        invariant forall j | 0 <= j < k :: nodes[j].coordinates != c
      {
        if nodes[k].coordinates == c {
          return nodes[k], k;
        }
      }
      found := null;
    }

    /** The node of least score; the last of them when several tie. */
    method SelectBest(open: seq<Node>) returns (best: nat)
      requires open != []
      ensures best < |open|
      ensures forall k | 0 <= k < |open| :: open[best].GetScore() <= open[k].GetScore()
      ensures forall k | best < k < |open| :: open[best].GetScore() < open[k].GetScore()
    {
      best := 0;
      for k := 0 to |open|
        invariant best < |open| && best <= k
        invariant k > 0 ==> best < k
        invariant forall j | 0 <= j < k :: open[best].GetScore() <= open[j].GetScore()
        invariant forall j | best < j < k :: open[best].GetScore() < open[j].GetScore()
      {
        if open[k].GetScore() <= open[best].GetScore() {
          best := k;
        }
      }
    }

    /** What holds of the node lists while the last closed cell is being expanded. */
    ghost predicate Expanding(pb: Problem, open: seq<Node>, closed: seq<Node>, openR: seq<Rec>, closedR: seq<Rec>, i: nat)
      reads open, closed
    {
      && closed != []
      && i <= pb.dirs
      && Shows(open, closed, openR) && Shows(closed, closed, closedR)
      && Wf(pb, openR, closedR) && Frontier(pb, openR, closedR, i)
    }

    /** Offers one free neighbour of the cell just closed to the open list. */
    method Offer(heap: Heap, current: Node, open0: seq<Node>, closed: seq<Node>, target: Vec2i, i: nat, c: Vec2i,
                 ghost pb: Problem, ghost openR0: seq<Rec>, ghost closedR: seq<Rec>)
      returns (open: seq<Node>, ghost openR: seq<Rec>, ghost created: set<Node>)
      requires pb == GetProblem(pb.source, target) && i < pb.dirs
      requires Expanding(pb, open0, closed, openR0, closedR, i)
      requires current == closed[|closed| - 1] && c == Neighbour(current.coordinates, i)
      requires !Collides(pb.world, c) && !Has(closedR, c)
      modifies heap, Elements(open0)
      ensures forall n | n in closed :: unchanged(n)
      ensures fresh(created) && Elements(open) == Elements(open0) + created && heap.live == old(heap.live) + created
      ensures Expanding(pb, open, closed, openR, closedR, i + 1)
    {
      hide Wf, Frontier, Linked, Collides, Successor, Neighbour, Covered, Has;
      open, openR, created := open0, openR0, {};
      ApartNodes(pb, open, closed, openR, closedR);
      ghost var s := Successor(pb, closedR, i);
      SuccessorShown(pb, closed, closedR, i);
      var totalCost := current.G + (if i < 4 then 10 else 14);
      var successor, at := FindNodeOnList(open, c);
      if successor == null {
        NotOnList(open, closed, openR, c);
        AddKeeps(pb, openR, closedR, i);
        successor := heap.New(c, current);
        successor.G := totalCost;
        successor.H := heuristic(c, target);
        open, openR, created := open + [successor], openR + [s], {successor};
        assert ShowsOne(successor, closed, s);
        assert Shows(open, closed, openR);
        assert Shows(closed, closed, closedR);
      } else if totalCost < successor.G {
        assert ShowsOne(open[at], closed, openR[at]);
        OpenEstimate(pb, openR, closedR, at);
        LowerKeeps(pb, openR, closedR, i, at);
        successor.parent := current;
        successor.G := totalCost;
        openR := openR[at := s];
        assert ShowsOne(successor, closed, s);
        assert Shows(open, closed, openR);
        assert forall n | n in closed :: unchanged(n) by { assert forall n | n in closed :: n in Elements(closed); }
        assert Shows(closed, closed, closedR);
      } else {
        assert ShowsOne(open[at], closed, openR[at]);
        OpenCovers(openR, closedR, at, s);
        SkipKeeps(pb, openR, closedR, i);
      }
    }

    lemma SuccessorShown(pb: Problem, closed: seq<Node>, closedR: seq<Rec>, i: nat)
      requires closed != [] && i < pb.dirs && Shows(closed, closed, closedR)
      ensures var s, current := Successor(pb, closedR, i), closed[|closed| - 1];
              && s.c == Neighbour(current.coordinates, i) && s.g == current.G + (if i < 4 then 10 else 14)
              && s.h == pb.heur(s.c, pb.target) && s.parent == |closed| - 1
    {
      hide Neighbour;
      assert ShowsOne(closed[|closed| - 1], closed, closedR[|closed| - 1]);
    }

    lemma OpenCovers(open: seq<Rec>, closed: seq<Rec>, at: nat, s: Rec)
      requires at < |open| && open[at].c == s.c && open[at].g <= s.g
      ensures Covered(open, closed, s.c, s.g)
    {
    }

    /** Offers every neighbour of the cell just closed to the open list. */
    method ExpandNeighbours(heap: Heap, current: Node, open0: seq<Node>, closed: seq<Node>, target: Vec2i,
                            ghost pb: Problem, ghost openR0: seq<Rec>, ghost closedR: seq<Rec>)
      returns (open: seq<Node>, ghost openR: seq<Rec>, ghost created: set<Node>)
      requires pb == GetProblem(pb.source, target)
      requires Expanding(pb, open0, closed, openR0, closedR, 0)
      requires current == closed[|closed| - 1]
      modifies heap, Elements(open0)
      ensures forall n | n in closed :: unchanged(n)
      ensures fresh(created) && Elements(open) == Elements(open0) + created && heap.live == old(heap.live) + created
      ensures Expanding(pb, open, closed, openR, closedR, pb.dirs)
    {
      hide Wf, Frontier, Linked, Collides, ShowsOne;
      open, openR, created := open0, openR0, {};
      for i := 0 to directions
        invariant fresh(created) && Elements(open) == Elements(open0) + created && heap.live == old(heap.live) + created
        invariant forall n | n in closed :: unchanged(n)
        invariant Expanding(pb, open, closed, openR, closedR, i)
      {
        ShownCell(closed, closed, closedR, |closed| - 1);
        var c := Neighbour(current.coordinates, i);
        var blocked := DetectCollision(c);
        if !blocked {
          var hit, at := FindNodeOnList(closed, c);
          blocked := hit != null;
          if hit == null {
            NotOnList(closed, closed, closedR, c);
          } else {
            ShownCell(closed, closed, closedR, at);
          }
        }
        if blocked {
          SkipKeeps(pb, openR, closedR, i);
          continue;
        }
        ghost var more;
        open, openR, more := Offer(heap, current, open, closed, target, i, c, pb, openR, closedR);
        created := created + more;
      }
    }

    /** The cells from `current` back to the source, by following parent pointers. */
    method TracePath(current0: Node, ghost closed: seq<Node>, ghost closedR: seq<Rec>, ghost r: Rec)
      returns (cells: seq<Vec2i>)
      requires Shows(closed, closed, closedR) && ParentsFirst(closedR)
      requires ShowsOne(current0, closed, r) && -1 <= r.parent < |closed|
      ensures cells == Reverse(WalkTo(closedR, r.parent) + [r.c])
    {
      hide WalkTo, Reverse, ParentsFirst;
      var current: Node? := current0;
      ghost var rest := r;
      cells := [];
      ghost var goal := WalkTo(closedR, r.parent) + [r.c];
      while current != null
        invariant current != null ==> -1 <= rest.parent < |closed| && ShowsOne(current, closed, rest)
        invariant Reverse(goal) == cells + if current == null then [] else Reverse(WalkTo(closedR, rest.parent) + [rest.c])
        decreases if current == null then -1 else rest.parent + 1
      {
        TraceStep(closedR, rest);
        cells := cells + [current.coordinates];
        current := current.parent;
        if current != null {
          ClosedShown(closed, closedR, rest.parent);
          rest := closedR[rest.parent];
        }
      }
    }

    lemma ClosedShown(closed: seq<Node>, closedR: seq<Rec>, k: nat)
      requires Shows(closed, closed, closedR) && k < |closed|
      ensures ShowsOne(closed[k], closed, closedR[k])
    {
    }

    lemma TraceStep(closed: seq<Rec>, r: Rec)
      requires ParentsFirst(closed) && -1 <= r.parent < |closed|
      ensures r.parent != -1 ==> -1 <= closed[r.parent].parent < r.parent
      ensures Reverse(WalkTo(closed, r.parent) + [r.c])
              == [r.c] + if r.parent == -1 then []
                         else var s := closed[r.parent]; Reverse(WalkTo(closed, s.parent) + [s.c])
    {
      hide Reverse;
      ReverseSnoc(WalkTo(closed, r.parent), r.c);
      NothingReversed();
    }

    lemma NoParent(closed: seq<Rec>, c: Vec2i)
      requires ParentsFirst(closed)
      ensures Reverse(WalkTo(closed, -1) + [c]) == [c]
    {
      ReverseSnoc([], c);
      assert WalkTo(closed, -1) == [];
    }

    lemma NothingReversed()
      ensures Reverse([]) == []
    {
    }

    lemma ReverseSnoc(p: seq<Vec2i>, c: Vec2i)
      ensures Reverse(p + [c]) == [c] + Reverse(p)
    {
    }

    lemma ReverseTwice(p: seq<Vec2i>)
      ensures Reverse(Reverse(p)) == p
    {
    }

    /** What popping a stop cell proves about the cells traced back from it. */
    lemma StopFound(pb: Problem, open: seq<Rec>, closed: seq<Rec>, best: nat, cells: seq<Vec2i>)
      requires Wf(pb, open, closed) && Frontier(pb, open, closed, pb.dirs) && NoStop(pb, closed)
      requires Consistent(pb.heur, pb.dirs, pb.target) ==> Settled(pb, closed)
      requires IsBest(open, best) && IsStop(pb.target, open[best].c)
      requires ParentsFirst(closed) && -1 <= open[best].parent < |closed|
      requires cells == Reverse(WalkTo(closed, open[best].parent) + [open[best].c])
      ensures IsWalk(pb.world, pb.dirs, pb.source, Reverse(cells)) && Cost(Reverse(cells)) == open[best].g
      ensures |cells| > 0 && cells[0] == open[best].c
      ensures forall k | 1 <= k < |cells| :: cells[k] in Cells(closed)
      ensures Consistent(pb.heur, pb.dirs, pb.target) ==>
                forall p | IsWalk(pb.world, pb.dirs, pb.source, p) && IsStop(pb.target, Last(p)) ::
                  Cost(Reverse(cells)) <= Cost(p)
    {
      hide Wf, Frontier, Linked, Collides, Consistent, Settled, NoStop;
      ReverseTwice(WalkTo(closed, open[best].parent) + [open[best].c]);
      OpenChainIsWalk(pb, open, closed, best);
      WalkToIsClosed(closed, open[best].parent);
      if Consistent(pb.heur, pb.dirs, pb.target) {
        forall p | IsWalk(pb.world, pb.dirs, pb.source, p) && IsStop(pb.target, Last(p))
          ensures Cost(Reverse(cells)) <= Cost(p)
        {
          StopIsCheapest(pb, open, closed, best, p);
        }
      }
    }

    /** The table of what is closed when a stop cell is popped. */
    lemma ClosingAtStop(pb: Problem, open: seq<Rec>, closed: seq<Rec>, best: nat, path: seq<Vec2i>, settled: map<Vec2i, nat>)
      requires Wf(pb, open, closed) && Frontier(pb, open, closed, pb.dirs) && NoStop(pb, closed)
      requires Consistent(pb.heur, pb.dirs, pb.target) ==> Settled(pb, closed) && Leads(pb, closed)
      requires IsBest(open, best)
      requires |path| >= 2 && path[1] == open[best].c && Cost(WalkOf(path)) == open[best].g
      requires forall k | 2 <= k < |path| :: path[k] in Cells(closed)
      requires settled == map c | c in Cells(closed) :: CostOf(closed, c)
      ensures IsClosing(pb, path, true, settled)
    {
      hide Wf, Frontier, Consistent, Settled, Leads, WalkOf, Cost, IsWalk, IsDistance;
      SettledDistances(pb, open, closed);
      if Consistent(pb.heur, pb.dirs, pb.target) {
        ClosedAtStop(pb, open, closed, best);
      }
    }

    lemma ClosingAtEnd(pb: Problem, closed: seq<Rec>, path: seq<Vec2i>, settled: map<Vec2i, nat>)
      requires Wf(pb, [], closed) && Frontier(pb, [], closed, pb.dirs) && NoStop(pb, closed)
      requires Consistent(pb.heur, pb.dirs, pb.target) ==> Settled(pb, closed) && Leads(pb, closed)
      requires settled == map c | c in Cells(closed) :: CostOf(closed, c)
      requires |path| >= 2 && closed != []
      requires var last := closed[|closed| - 1]; path[1] == last.c && Cost(WalkOf(path)) == last.g
      ensures IsClosing(pb, path, false, settled)
    {
      hide Wf, Frontier, Consistent, Settled, WalkOf, Cost, IsWalk, IsDistance, Reachable, NoStop, CostOf, Cells, Leads;
      SettledDistances(pb, [], closed);
      Exhausted(pb, closed);
      StopsAreOpen(pb, closed);
      TableOfCosts(pb, [], closed);
      LeadsToLast(pb, closed);
    }

    lemma LeadsToLast(pb: Problem, closed: seq<Rec>)
      ensures Leads(pb, closed) ==> LastIsFarthest(pb, closed)
    {
    }

    lemma TableOfCosts(pb: Problem, open: seq<Rec>, closed: seq<Rec>)
      requires Wf(pb, open, closed)
      ensures forall k | 0 <= k < |closed| :: closed[k].c in Cells(closed) && CostOf(closed, closed[k].c) == closed[k].g
      ensures forall c | c in Cells(closed) :: exists k :: 0 <= k < |closed| && closed[k].c == c
    {
      hide AllLinked;
      assert Distinct(closed);
    }

    lemma StopsAreOpen(pb: Problem, closed: seq<Rec>)
      requires NoStop(pb, closed)
      ensures forall c | c in Cells(closed) :: !IsStop(pb.target, c)
    {
    }

    /** What an empty open list proves. */
    lemma Exhausted(pb: Problem, closed: seq<Rec>)
      requires Wf(pb, [], closed) && Frontier(pb, [], closed, pb.dirs) && NoStop(pb, closed)
      ensures forall p | IsWalk(pb.world, pb.dirs, pb.source, p) :: !IsStop(pb.target, Last(p))
      ensures forall c :: c in Cells(closed) <==> Reachable(pb.world, pb.dirs, pb.source, c)
    {
      hide Wf, Frontier, Reachable;
      forall c
        ensures c in Cells(closed) <==> Reachable(pb.world, pb.dirs, pb.source, c)
      {
        ExhaustedIsReachable(pb, closed, c);
        assert c in Cells(closed) <==> Has(closed, c);
      }
      forall p | IsWalk(pb.world, pb.dirs, pb.source, p)
        ensures !IsStop(pb.target, Last(p))
      {
        WalkStaysClosed(pb, closed, p);
      }
    }

    /** Nothing being open, the cells traced back from the last closed one are a walk, backwards. */
    lemma LastTraced(pb: Problem, closed: seq<Rec>, cells: seq<Vec2i>)
      requires Wf(pb, [], closed) && ParentsFirst(closed)
      requires closed != [] ==>
                 cells == Reverse(WalkTo(closed, closed[|closed| - 1].parent) + [closed[|closed| - 1].c])
      ensures closed != [] && |cells| > 0 && IsWalk(pb.world, pb.dirs, pb.source, Reverse(cells))
      ensures var last := closed[|closed| - 1]; cells[0] == last.c && Cost(Reverse(cells)) == last.g
    {
      hide AllLinked, Apart;
      assert closed != [];
      var k := |closed| - 1;
      ChainIsWalk(pb, [], closed, k);
      ReverseTwice(WalkTo(closed, k));
    }

    /** When the source is the last cell closed, no walk leaves it. */
    lemma LastIsSource(pb: Problem, closed: seq<Rec>)
      requires Wf(pb, [], closed) && Frontier(pb, [], closed, pb.dirs) && closed != []
      requires closed[|closed| - 1].c == pb.source
      ensures forall p | IsWalk(pb.world, pb.dirs, pb.source, p) :: Last(p) == pb.source
    {
      hide Linked, Frontier;
      assert closed[0] == SourceRec(pb);
      assert |closed| == 1;
      forall p | IsWalk(pb.world, pb.dirs, pb.source, p)
        ensures Last(p) == pb.source
      {
        WalkStaysClosed(pb, closed, p);
      }
    }

    /** A source that is a stop cell is popped before anything is closed. */
    lemma StopAtSource(pb: Problem, open: seq<Rec>, closed: seq<Rec>, best: nat)
      requires Wf(pb, open, closed) && NoStop(pb, closed) && best < |open|
      requires IsStop(pb.target, pb.source)
      ensures closed == [] && open[best] == SourceRec(pb)
    {
      hide Wf;
      SourceFirst(pb, open, closed);
    }

    lemma SourceFirst(pb: Problem, open: seq<Rec>, closed: seq<Rec>)
      requires Wf(pb, open, closed)
      ensures if closed == [] then open == [SourceRec(pb)] else closed[0].c == pb.source
    {
    }

    /** Deletes every node of a list. */
    method ReleaseNodes(heap: Heap, nodes0: seq<Node>) returns (nodes: seq<Node>)
      requires AllDistinct(nodes0) && Elements(nodes0) <= heap.live
      modifies heap, Elements(nodes0)
      ensures nodes == [] && heap.live == old(heap.live) - Elements(nodes0)
    {
      nodes := nodes0;
      while nodes != []
        invariant AllDistinct(nodes) && Elements(nodes) <= Elements(nodes0) && Elements(nodes) <= heap.live
        invariant old(heap.live) - Elements(nodes0) == heap.live - Elements(nodes)
      {
        assert nodes[0] in Elements(nodes);
        assert Elements(nodes) == Elements(nodes[1..]) + {nodes[0]};
        heap.Delete(nodes[0]);
        nodes := nodes[1..];
      }
      assert Elements(nodes) == {};
    }

    /** Deletes the nodes of both lists. */
    method ReleaseAll(heap: Heap, ghost pb: Problem, open: seq<Node>, closed: seq<Node>,
                      ghost openR: seq<Rec>, ghost closedR: seq<Rec>)
      requires Shows(open, closed, openR) && Shows(closed, closed, closedR) && Wf(pb, openR, closedR)
      requires Elements(open) + Elements(closed) <= heap.live
      modifies heap, Elements(open), Elements(closed)
      ensures heap.live == old(heap.live) - (Elements(open) + Elements(closed))
    {
      ApartNodes(pb, open, closed, openR, closedR);
      hide Wf, Shows, AllDistinct, Elements;
      var openSet := ReleaseNodes(heap, open);
      var closedSet := ReleaseNodes(heap, closed);
    }

    /** The answer when a stop cell is popped. */
    lemma FoundAnswer(pb: Problem, open: seq<Rec>, closed: seq<Rec>, best: nat, cells: seq<Vec2i>, path: seq<Vec2i>,
                      settled: map<Vec2i, nat>)
      requires Wf(pb, open, closed) && Frontier(pb, open, closed, pb.dirs) && NoStop(pb, closed)
      requires Consistent(pb.heur, pb.dirs, pb.target) ==> Settled(pb, closed) && Leads(pb, closed)
      requires IsBest(open, best) && IsStop(pb.target, open[best].c)
      requires ParentsFirst(closed) && -1 <= open[best].parent < |closed|
      requires cells == Reverse(WalkTo(closed, open[best].parent) + [open[best].c])
      requires path == [pb.target] + cells
      requires settled == map c | c in Cells(closed) :: CostOf(closed, c)
      ensures IsAnswer(pb, path, true) && IsClosing(pb, path, true, settled)
    {
      hide Wf, Frontier, Settled, Leads, NoStop, ParentsFirst, Cells, IsClosing, Consistent, IsWalk, Reverse, WalkTo, Cost;
      StopFound(pb, open, closed, best, cells);
      assert path[1..] == cells;
      if IsStop(pb.target, pb.source) {
        StopAtSource(pb, open, closed, best);
        NoParent(closed, open[best].c);
      }
      ClosingAtStop(pb, open, closed, best, path, settled);
    }

    /** The answer when nothing is left to explore. */
    lemma EndAnswer(pb: Problem, closed: seq<Rec>, cells: seq<Vec2i>, path: seq<Vec2i>, settled: map<Vec2i, nat>)
      requires Wf(pb, [], closed) && Frontier(pb, [], closed, pb.dirs) && NoStop(pb, closed) && ParentsFirst(closed)
      requires Consistent(pb.heur, pb.dirs, pb.target) ==> Settled(pb, closed) && Leads(pb, closed)
      requires closed != [] ==>
                 cells == Reverse(WalkTo(closed, closed[|closed| - 1].parent) + [closed[|closed| - 1].c])
      requires |path| == 1 + |cells| && path[1..] == cells
      requires settled == map c | c in Cells(closed) :: CostOf(closed, c)
      ensures IsAnswer(pb, path, false) && IsClosing(pb, path, false, settled)
    {
      hide Wf, Frontier, Settled, Leads, NoStop, ParentsFirst, Cells, IsClosing, Consistent, IsWalk, Reverse, WalkTo, Cost;
      LastTraced(pb, closed, cells);
      Exhausted(pb, closed);
      if path[1] == pb.source {
        LastIsSource(pb, closed);
      }
      ClosingAtEnd(pb, closed, path, settled);
    }

    /** What the open and closed lists satisfy whenever the search loop tests its guard. */
    ghost predicate Searching(pb: Problem, open: seq<Node>, closed: seq<Node>, openR: seq<Rec>, closedR: seq<Rec>,
                              live: set<Node>)
      reads open, closed
    {
      && Shows(open, closed, openR) && Shows(closed, closed, closedR)
      && Wf(pb, openR, closedR) && Frontier(pb, openR, closedR, pb.dirs) && NoStop(pb, closedR)
      && (Consistent(pb.heur, pb.dirs, pb.target) ==> Settled(pb, closedR) && Leads(pb, closedR))
      && live == Elements(open) + Elements(closed)
    }

    lemma SearchBegins(pb: Problem, n: Node)
      requires ShowsOne(n, [], SourceRec(pb))
      ensures Searching(pb, [n], [], [SourceRec(pb)], [], {n})
    {
      InitialState(pb);
      OneElement(n);
    }

    lemma SearchGoesOn(pb: Problem, open: seq<Node>, closed: seq<Node>, openR: seq<Rec>, closedR: seq<Rec>, live: set<Node>)
      requires Expanding(pb, open, closed, openR, closedR, pb.dirs) && NoStop(pb, closedR)
      requires Consistent(pb.heur, pb.dirs, pb.target) ==> Settled(pb, closedR) && Leads(pb, closedR)
      requires live == Elements(open) + Elements(closed)
      ensures Searching(pb, open, closed, openR, closedR, live)
      ensures closed != [] && |closed| == |closedR| && ShowsOne(closed[|closed| - 1], closed, closedR[|closed| - 1])
    {
    }

    lemma SearchFacts(pb: Problem, open: seq<Node>, closed: seq<Node>, openR: seq<Rec>, closedR: seq<Rec>, live: set<Node>)
      requires Searching(pb, open, closed, openR, closedR, live)
      ensures |open| == |openR| && |closed| == |closedR|
      ensures Shows(open, closed, openR) && Shows(closed, closed, closedR) && ParentsFirst(closedR)
      ensures Wf(pb, openR, closedR) && Frontier(pb, openR, closedR, pb.dirs) && NoStop(pb, closedR)
      ensures Consistent(pb.heur, pb.dirs, pb.target) ==> Settled(pb, closedR) && Leads(pb, closedR)
      ensures live == Elements(open) + Elements(closed)
    {
      hide Wf, Frontier, NoStop, Settled, Leads, Consistent, Elements;
      WfParents(pb, openR, closedR);
    }

    /** Searches from `source` until the best open cell is directly above or below `target`. */
    method FindPath(heap: Heap, source: Vec2i, target: Vec2i)
      returns (path: seq<Vec2i>, found: bool, ghost settled: map<Vec2i, nat>)
      modifies heap
      ensures IsRightList(source, target, path, found)
      ensures IsAnswer(GetProblem(source, target), path, found)
      ensures IsClosing(GetProblem(source, target), path, found, settled)
      ensures heap.live == old(heap.live)
    {
      hide Wf, Frontier, Settled, Leads, NoStop, ParentsFirst, Universe, Cells, IsClosing, IsRightList;
      hide Consistent, IsWalk, IsDistance, Reachable, Reverse, WalkTo, Cost, IsAnswer, Elements, AllDistinct;
      hide Searching, Expanding, Shows;
      ghost var pb := GetProblem(source, target);
      var endpoint: Vec2i := *;
      found := false;
      var current := heap.New(source, null);
      var open, closed := [current], [];
      ghost var live := {current};
      ghost var openR, closedR, r, bestAt := [SourceRec(pb)], [], SourceRec(pb), 0;
      SearchBegins(pb, current);
      while open != []
        invariant fresh(live) && heap.live == old(heap.live) + live
        invariant Searching(pb, open, closed, openR, closedR, live)
        invariant !found && ShowsOne(current, closed, r) && -1 <= r.parent < |closed|
        invariant closedR != [] ==> r == closedR[|closedR| - 1]
        decreases Universe(pb) - Cells(closedR)
      {
        SearchFacts(pb, open, closed, openR, closedR, live);
        var best := SelectBest(open);
        current, r, bestAt := open[best], openR[best], best;
        BestShown(pb, open, closed, openR, closedR, live, best);
        var up, down := Vec2i(target.x - 1, target.y), Vec2i(target.x + 1, target.y);
        if current.coordinates == up {
          endpoint := Vec2i(up.x + 1, up.y);
          found := true;
          break;
        } else if current.coordinates == down {
          endpoint := Vec2i(down.x - 1, down.y);
          found := true;
          break;
        }
        CloseBest(pb, open, closed, openR, closedR, live, best);
        closed := closed + [current];
        open := open[..best] + open[best + 1..];
        openR, closedR := openR[..best] + openR[best + 1..], closedR + [r];
        ghost var created;
        open, openR, created := ExpandNeighbours(heap, current, open, closed, target, pb, openR, closedR);
        live := live + created;
        SearchGoesOn(pb, open, closed, openR, closedR, live);
      }
      path := [endpoint];
      SearchFacts(pb, open, closed, openR, closedR, live);
      var cells := TracePath(current, closed, closedR, r);
      path := path + cells;
      assert path[1..] == cells;
      settled := map c | c in Cells(closedR) :: CostOf(closedR, c);
      if found {
        FoundAnswer(pb, openR, closedR, bestAt, cells, path, settled);
      } else {
        EndAnswer(pb, closedR, cells, path, settled);
      }
      ReleaseAll(heap, pb, open, closed, openR, closedR);
      AnswerSpelledOut(source, target, path, found);
    }

    /** Searches for each target in turn and keeps the path with the fewest cells, the earliest on ties. */
    method FindBestPath(heap: Heap, start: Vec2i, endpoints: seq<Vec2i>)
      returns (best: seq<Vec2i>, ghost paths: seq<seq<Vec2i>>, ghost found: seq<bool>, ghost chosen: nat)
      requires endpoints != []
      modifies heap
      ensures heap.live == old(heap.live)
      ensures IsRun(GetWorld(), directions, heuristic, start, endpoints, paths, found, chosen)
      ensures best == paths[chosen] && best != []
      ensures forall k | 0 <= k < |endpoints| :: IsRightList(start, endpoints[k], paths[k], found[k])
      ensures forall k | 0 <= k < |endpoints| :: found[k] <==> StopReachable(GetProblem(start, endpoints[k]))
      ensures directions == 4 && (forall k | 0 <= k < |endpoints| :: Consistent(heuristic, 4, endpoints[k])) ==>
                found[chosen] ==>
                  && IsCheapest(GetWorld(), 4, start, endpoints, best, chosen)
                  && IsCheapestList(start, endpoints, best, chosen)
    {
      hide IsAnswer, IsRightList, IsCheapestList, IsClosing, IsDistance, Reachable, Consistent;
      hide IsTable, IsShortest, IsCheapest, StopReachable;
      var scored: map<nat, seq<Vec2i>> := map[];
      paths, found := [], [];
      EmptyTable();
      for k := 0 to |endpoints|
        invariant |paths| == |found| == k && heap.live == old(heap.live)
        invariant forall j | 0 <= j < k :: IsAnswer(GetProblem(start, endpoints[j]), paths[j], found[j])
        invariant forall j | 0 <= j < k :: IsRightList(start, endpoints[j], paths[j], found[j])
        invariant IsTable(scored, paths)
      {
        var path, ok, _ := FindPath(heap, start, endpoints[k]);
        TableInsert(scored, paths, path);
        paths, found := paths + [path], found + [ok];
        if |path| !in scored {
          scored := scored[|path| := path];
        }
      }
      TableNotEmpty(scored, paths);
      var least := LeastKey(scored);
      best := scored[least];
      chosen := TableFront(scored, paths, least);
      KeptIsCheapest(GetWorld(), directions, heuristic, start, endpoints, paths, found, chosen);
      if directions == 4 && IsCheapest(GetWorld(), 4, start, endpoints, best, chosen) {
        CheapestSpelledOut(start, endpoints, best, chosen);
      }
    }

    /** The first key of an ordered map. */
    method LeastKey(m: map<nat, seq<Vec2i>>) returns (least: nat)
      requires m != map[]
      ensures least in m && forall k | k in m :: least <= k
    {
      var rest := m.Keys;
      assert exists k :: k in m;
      least :| least in rest;
      rest := rest - {least};
      while rest != {}
        invariant least in m && rest <= m.Keys
        invariant forall k | k in m && k !in rest :: least <= k
      {
        var k :| k in rest;
        rest := rest - {k};
        if k < least {
          least := k;
        }
      }
    }

    /** The best open node becomes the last closed one: shown by the lists with it moved. */
    lemma CloseBest(pb: Problem, open: seq<Node>, closed: seq<Node>, openR: seq<Rec>, closedR: seq<Rec>,
                    live: set<Node>, best: nat)
      requires Searching(pb, open, closed, openR, closedR, live)
      requires IsBest(openR, best) && !IsStop(pb.target, openR[best].c)
      ensures var open', closed' := open[..best] + open[best + 1..], closed + [open[best]];
              var openR', closedR' := openR[..best] + openR[best + 1..], closedR + [openR[best]];
              && Expanding(pb, open', closed', openR', closedR', 0)
              && NoStop(pb, closedR')
              && (Consistent(pb.heur, pb.dirs, pb.target) ==> Settled(pb, closedR') && Leads(pb, closedR'))
              && live == Elements(open') + Elements(closed')
              && Universe(pb) - Cells(closedR') < Universe(pb) - Cells(closedR)
    {
      hide Wf, Frontier, Linked, Collides, Consistent, Leads;
      var open', closed' := open[..best] + open[best + 1..], closed + [open[best]];
      var openR', closedR' := openR[..best] + openR[best + 1..], closedR + [openR[best]];
      PopKeeps(pb, openR, closedR, best);
      if Consistent(pb.heur, pb.dirs, pb.target) {
        PoppedIsSettled(pb, openR, closedR, best);
        PopKeepsLeads(pb, openR, closedR, best);
      }
      assert Elements(open') + Elements(closed') == Elements(open) + Elements(closed);
      WfParents(pb, openR, closedR);
      PopShows(open, closed, openR, closedR, best);
      ClosedWithinUniverse(pb, openR, closedR);
      assert openR[best].c in Cells(openR);
      CellsSnoc(closedR, openR[best]);
    }

    lemma PopShows(open: seq<Node>, closed: seq<Node>, openR: seq<Rec>, closedR: seq<Rec>, best: nat)
      requires Shows(open, closed, openR) && Shows(closed, closed, closedR) && best < |open|
      requires forall k | 0 <= k < |openR| :: -1 <= openR[k].parent < |closed|
      requires forall k | 0 <= k < |closedR| :: -1 <= closedR[k].parent < |closed|
      ensures var closed' := closed + [open[best]];
              && Shows(open[..best] + open[best + 1..], closed', openR[..best] + openR[best + 1..])
              && Shows(closed', closed', closedR + [openR[best]])
    {
    }

    lemma BestShown(pb: Problem, open: seq<Node>, closed: seq<Node>, openR: seq<Rec>, closedR: seq<Rec>, live: set<Node>,
                    best: nat)
      requires Searching(pb, open, closed, openR, closedR, live) && best < |open|
      requires forall k | 0 <= k < |open| :: open[best].GetScore() <= open[k].GetScore()
      ensures IsBest(openR, best) && ShowsOne(open[best], closed, openR[best])
      ensures -1 <= openR[best].parent < |closed|
    {
      hide Wf, Frontier, NoStop, Settled, Leads, Consistent, Elements;
      WfParents(pb, openR, closedR);
    }

    lemma NotOnList(nodes: seq<Node>, closed: seq<Node>, rs: seq<Rec>, c: Vec2i)
      requires Shows(nodes, closed, rs)
      requires forall n | n in nodes :: n.coordinates != c
      ensures !Has(rs, c)
    {
    }
  }

  // ---------- the best of several targets ----------

  /** One answer for each target, and the `chosen` one is kept. */
  ghost predicate IsRun(w: World, dirs: MoveCount, h: Heuristic, start: Vec2i, endpoints: seq<Vec2i>,
                        paths: seq<seq<Vec2i>>, found: seq<bool>, chosen: nat) {
    && |paths| == |found| == |endpoints|
    && (forall k | 0 <= k < |endpoints| :: IsAnswer(Problem(w, dirs, start, endpoints[k], h), paths[k], found[k]))
    && IsShortest(paths, chosen)
  }

  /** No walk to a stop cell of any target is cheaper than the path kept, and none to a target listed before the
      `chosen` one is as cheap. */
  ghost predicate IsCheapest(w: World, dirs: MoveCount, start: Vec2i, endpoints: seq<Vec2i>, best: seq<Vec2i>, chosen: nat)
    requires best != []
  {
    forall k, p | 0 <= k < |endpoints| && IsWalk(w, dirs, start, p) && IsStop(endpoints[k], Last(p)) ::
      Cost(WalkOf(best)) <= Cost(p) && (k < chosen ==> Cost(WalkOf(best)) < Cost(p))
  }

  /** A target is found exactly when one of its stop cells can be reached. */
  lemma FoundIffReachable(pb: Problem, path: seq<Vec2i>, found: bool)
    requires IsAnswer(pb, path, found)
    ensures found <==> StopReachable(pb)
  {
    if found {
      assert Last(WalkOf(path)) == path[1];
    }
  }

  /** With straight moves the path kept is a cheapest one, and the earliest such, unless it is one that was not found. */
  lemma ShortestIsCheapest(w: World, h: Heuristic, start: Vec2i, endpoints: seq<Vec2i>, paths: seq<seq<Vec2i>>,
                           found: seq<bool>, chosen: nat)
    requires forall k | 0 <= k < |endpoints| :: Consistent(h, 4, endpoints[k])
    requires IsRun(w, 4, h, start, endpoints, paths, found, chosen) && found[chosen]
    ensures paths[chosen] != [] && IsCheapest(w, 4, start, endpoints, paths[chosen], chosen)
  {
    var best := paths[chosen];
    assert IsAnswer(Problem(w, 4, start, endpoints[chosen], h), best, true);
    StraightCost(w, start, WalkOf(best));
    forall k, p | 0 <= k < |endpoints| && IsWalk(w, 4, start, p) && IsStop(endpoints[k], Last(p))
      ensures Cost(WalkOf(best)) <= Cost(p) && (k < chosen ==> Cost(WalkOf(best)) < Cost(p))
    {
      assert IsAnswer(Problem(w, 4, start, endpoints[k], h), paths[k], true);
      StraightCost(w, start, WalkOf(paths[k]));
      assert |WalkOf(paths[k])| == |paths[k]| - 1 && |WalkOf(best)| == |best| - 1;
      assert Cost(WalkOf(paths[k])) <= Cost(p);
    }
  }

  lemma KeptIsCheapest(w: World, dirs: MoveCount, h: Heuristic, start: Vec2i, endpoints: seq<Vec2i>,
                       paths: seq<seq<Vec2i>>, found: seq<bool>, chosen: nat)
    requires IsRun(w, dirs, h, start, endpoints, paths, found, chosen)
    ensures paths[chosen] != []
    ensures forall k | 0 <= k < |endpoints| :: found[k] <==> StopReachable(Problem(w, dirs, start, endpoints[k], h))
    ensures dirs == 4 && found[chosen] && (forall k | 0 <= k < |endpoints| :: Consistent(h, 4, endpoints[k])) ==>
              IsCheapest(w, 4, start, endpoints, paths[chosen], chosen)
  {
    hide StopReachable, Consistent, IsCheapest;
    forall k | 0 <= k < |endpoints|
      ensures found[k] <==> StopReachable(Problem(w, dirs, start, endpoints[k], h))
    {
      FoundIffReachable(Problem(w, dirs, start, endpoints[k], h), paths[k], found[k]);
    }
    assert IsAnswer(Problem(w, dirs, start, endpoints[chosen], h), paths[chosen], found[chosen]);
    if dirs == 4 && found[chosen] && forall k | 0 <= k < |endpoints| :: Consistent(h, 4, endpoints[k]) {
      ShortestIsCheapest(w, h, start, endpoints, paths, found, chosen);
    }
  }
}
