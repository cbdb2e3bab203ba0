/** The open and closed lists of the search as values, and why the search is right.

    A record's `parent` is the position of its parent in the closed list, or -1 for the source.
    Closed lists only grow at the end, so these positions never move. */
module SearchState {
  import opened Basics
  import opened Grid
  import opened Heuristics

  datatype Rec = Rec(c: Vec2i, g: nat, h: nat, parent: int)

  datatype Problem = Problem(world: World, dirs: MoveCount, source: Vec2i, target: Vec2i, heur: Heuristic)

  function Score(r: Rec): nat {
    r.g + r.h
  }

  function SourceRec(pb: Problem): Rec {
    Rec(pb.source, 0, 0, -1)
  }

  /** `r` was reached by one free move from one of the first `bound` closed records. */
  ghost predicate Linked(pb: Problem, closed: seq<Rec>, r: Rec, bound: nat)
    requires bound <= |closed|
  {
    && 0 <= r.parent < bound
    && Adjacent(pb.dirs, closed[r.parent].c, r.c)
    && !Collides(pb.world, r.c)
    && r.g == closed[r.parent].g + EdgeCost(closed[r.parent].c, r.c)
    && r.h == pb.heur(r.c, pb.target)
  }

  ghost predicate Distinct(rs: seq<Rec>) {
    forall i, j | 0 <= i < j < |rs| :: rs[i].c != rs[j].c
  }

  ghost predicate Has(rs: seq<Rec>, c: Vec2i) {
    exists k :: 0 <= k < |rs| && rs[k].c == c
  }

  /** No cell is both open and closed, or listed twice. */
  ghost predicate Apart(open: seq<Rec>, closed: seq<Rec>) {
    && Distinct(open)
    && Distinct(closed)
    && forall i, j | 0 <= i < |open| && 0 <= j < |closed| :: open[i].c != closed[j].c
  }

  /** The first closed record is the source; every other record was reached from a record closed earlier. */
  ghost predicate AllLinked(pb: Problem, open: seq<Rec>, closed: seq<Rec>) {
    && |closed| > 0
    && closed[0] == SourceRec(pb)
    && (forall k | 0 < k < |closed| :: Linked(pb, closed, closed[k], k))
    && (forall k | 0 <= k < |open| :: Linked(pb, closed, open[k], |closed|))
  }

  ghost predicate Wf(pb: Problem, open: seq<Rec>, closed: seq<Rec>) {
    && Apart(open, closed)
    && if closed == [] then open == [SourceRec(pb)] else AllLinked(pb, open, closed)
  }

  /** `c` is closed, or open at a cost of at most `bound`. */
  ghost predicate Covered(open: seq<Rec>, closed: seq<Rec>, c: Vec2i, bound: nat) {
    || Has(closed, c)
    || exists k :: 0 <= k < |open| && open[k].c == c && open[k].g <= bound
  }

  /** The first `upto` moves out of `r` all lead to covered or colliding cells. */
  ghost predicate Expanded(pb: Problem, open: seq<Rec>, closed: seq<Rec>, r: Rec, upto: nat)
    requires upto <= 8
  {
    forall i: nat | i < upto ::
      Collides(pb.world, Neighbour(r.c, i)) || Covered(open, closed, Neighbour(r.c, i), r.g + MoveCost(i))
  }

  /** Every closed record but the last is fully expanded, and the last one up to `upto` moves. */
  ghost predicate Frontier(pb: Problem, open: seq<Rec>, closed: seq<Rec>, upto: nat)
    requires upto <= pb.dirs
  {
    forall k | 0 <= k < |closed| ::
      Expanded(pb, open, closed, closed[k], if k == |closed| - 1 then upto else pb.dirs)
  }

  /** No closed record could have been reached more cheaply. */
  ghost predicate Settled(pb: Problem, closed: seq<Rec>) {
    forall k | 0 <= k < |closed| :: NoCheaperWalk(pb.world, pb.dirs, pb.source, closed[k].c, closed[k].g)
  }

  ghost predicate NoStop(pb: Problem, closed: seq<Rec>) {
    forall k | 0 <= k < |closed| :: !IsStop(pb.target, closed[k].c)
  }

  predicate IsBest(open: seq<Rec>, k: nat) {
    && k < |open|
    && forall j | 0 <= j < |open| :: Score(open[k]) <= Score(open[j])
  }

  // ---------- parent chains ----------

  ghost predicate ParentsFirst(closed: seq<Rec>) {
    forall j | 0 <= j < |closed| :: -1 <= closed[j].parent < j
  }

  /** The cells from the source to the `k`-th closed cell, by following parents; none for -1. */
  ghost function WalkTo(closed: seq<Rec>, k: int): (p: seq<Vec2i>)
    requires -1 <= k < |closed| && ParentsFirst(closed)
    decreases k + 1
  {
    if k == -1 then [] else WalkTo(closed, closed[k].parent) + [closed[k].c]
  }

  lemma WfParentsFirst(pb: Problem, open: seq<Rec>, closed: seq<Rec>)
    requires Wf(pb, open, closed)
    ensures ParentsFirst(closed)
  {
  }

  lemma WfParents(pb: Problem, open: seq<Rec>, closed: seq<Rec>)
    requires Wf(pb, open, closed)
    ensures ParentsFirst(closed)
    ensures forall k | 0 <= k < |open| :: -1 <= open[k].parent < |closed|
  {
  }

  /** The parent chain of a closed record is a walk, and the record's `g` is its cost. */
  lemma {:induction false} ChainIsWalk(pb: Problem, open: seq<Rec>, closed: seq<Rec>, k: nat)
    requires Wf(pb, open, closed) && k < |closed|
    ensures ParentsFirst(closed)
    ensures IsWalk(pb.world, pb.dirs, pb.source, WalkTo(closed, k))
    ensures Last(WalkTo(closed, k)) == closed[k].c
    ensures Cost(WalkTo(closed, k)) == closed[k].g
  {
    WfParentsFirst(pb, open, closed);
    if k > 0 {
      assert Linked(pb, closed, closed[k], k);
      ChainIsWalk(pb, open, closed, closed[k].parent);
      WalkGrows(pb, WalkTo(closed, closed[k].parent), closed[k].c);
    } else {
      assert WalkTo(closed, -1) == [];
      assert WalkTo(closed, 0) == [pb.source];
    }
  }

  lemma WalkGrows(pb: Problem, q: seq<Vec2i>, c: Vec2i)
    requires IsWalk(pb.world, pb.dirs, pb.source, q)
    requires Adjacent(pb.dirs, Last(q), c) && !Collides(pb.world, c)
    ensures IsWalk(pb.world, pb.dirs, pb.source, q + [c])
    ensures Cost(q + [c]) == Cost(q) + EdgeCost(Last(q), c)
  {
  }

  lemma SourceWalk(pb: Problem)
    ensures IsWalk(pb.world, pb.dirs, pb.source, [pb.source]) && Cost([pb.source]) == 0
  {
  }

  /** The chain of an open record: the cells handed back when that record is popped. */
  lemma OpenChainIsWalk(pb: Problem, open: seq<Rec>, closed: seq<Rec>, k: nat)
    requires Wf(pb, open, closed) && k < |open|
    ensures ParentsFirst(closed) && -1 <= open[k].parent < |closed|
    ensures var q := WalkTo(closed, open[k].parent) + [open[k].c];
            IsWalk(pb.world, pb.dirs, pb.source, q) && Cost(q) == open[k].g
  {
    hide IsWalk, Cost, Collides, Adjacent, Distinct;
    WfParentsFirst(pb, open, closed);
    if closed == [] {
      assert WalkTo(closed, -1) + [open[k].c] == [pb.source];
      SourceWalk(pb);
    } else {
      assert Linked(pb, closed, open[k], |closed|);
      ChainIsWalk(pb, open, closed, open[k].parent);
      WalkNotEmpty(pb, WalkTo(closed, open[k].parent));
      WalkGrows(pb, WalkTo(closed, open[k].parent), open[k].c);
    }
  }

  lemma WalkNotEmpty(pb: Problem, p: seq<Vec2i>)
    requires IsWalk(pb.world, pb.dirs, pb.source, p)
    ensures |p| > 0
  {
  }

  /** A closed record's cost is at most 14 for each record closed before it, so `g` cannot grow without bound. */
  lemma {:induction false} CostBound(pb: Problem, open: seq<Rec>, closed: seq<Rec>, k: nat)
    requires Wf(pb, open, closed) && k < |closed|
    ensures closed[k].g <= 14 * k
  {
    if k == 0 {
    } else {
      assert Linked(pb, closed, closed[k], k);
      CostBound(pb, open, closed, closed[k].parent);
    }
  }

  // ---------- leaving the closed set ----------

  /** A walk that ends outside the closed set has a first cell outside it. */
  lemma {:induction false} FirstOutside(closed: seq<Rec>, p: seq<Vec2i>) returns (k: nat)
    requires |p| > 0 && Has(closed, p[0]) && !Has(closed, Last(p))
    ensures 0 < k < |p| && Has(closed, p[k - 1]) && !Has(closed, p[k])
    decreases |p|
  {
    if Has(closed, p[|p| - 2]) {
      k := |p| - 1;
    } else {
      k := FirstOutside(closed, p[..|p| - 1]);
    }
  }

  /** Where a walk leaves the closed set, an open record is waiting at no more than the walk's cost so far. */
  lemma OpenOnTheWay(pb: Problem, open: seq<Rec>, closed: seq<Rec>, p: seq<Vec2i>) returns (k: nat, j: nat)
    requires Frontier(pb, open, closed, pb.dirs) && Settled(pb, closed)
    requires IsWalk(pb.world, pb.dirs, pb.source, p) && Has(closed, p[0]) && !Has(closed, Last(p))
    ensures 0 < k < |p| && j < |open| && open[j].c == p[k] && open[j].g <= Cost(p[..k + 1])
  {
    k := FirstOutside(closed, p);
    var m: nat :| m < |closed| && closed[m].c == p[k - 1];
    var i := MoveBetween(pb.world, pb.dirs, pb.source, p, k);
    assert Expanded(pb, open, closed, closed[m], pb.dirs);
    assert Covered(open, closed, Neighbour(closed[m].c, i), closed[m].g + MoveCost(i));
    j :| j < |open| && open[j].c == p[k] && open[j].g <= closed[m].g + MoveCost(i);
    PrefixCost(pb, closed, m, i, p, k);
  }

  lemma MoveBetween(w: World, dirs: MoveCount, source: Vec2i, p: seq<Vec2i>, k: nat) returns (i: nat)
    requires IsWalk(w, dirs, source, p) && 0 < k < |p|
    ensures i < dirs && p[k] == Neighbour(p[k - 1], i) && !Collides(w, p[k])
  {
    assert Adjacent(dirs, p[k - 1], p[k]);
    i :| i < dirs && p[k] == Neighbour(p[k - 1], i);
  }

  /** The heart of the search: no walk that leaves the closed set can undercut the best open record, its end's estimate
      counted in. */
  lemma BestOpenBound(pb: Problem, open: seq<Rec>, closed: seq<Rec>, best: nat, p: seq<Vec2i>)
    requires Wf(pb, open, closed) && Frontier(pb, open, closed, pb.dirs) && Settled(pb, closed)
    requires Consistent(pb.heur, pb.dirs, pb.target)
    requires IsBest(open, best)
    requires IsWalk(pb.world, pb.dirs, pb.source, p) && !Has(closed, Last(p))
    ensures Score(open[best]) <= Cost(p) + pb.heur(Last(p), pb.target)
    ensures pb.heur(Last(p), pb.target) == pb.heur(open[best].c, pb.target) ==> open[best].g <= Cost(p)
  {
    if closed != [] {
      assert Has(closed, p[0]);
      var k, j := OpenOnTheWay(pb, open, closed, p);
      WalkPrefix(pb.world, pb.dirs, pb.source, p, k);
      EstimateAlongWalk(pb.heur, pb.world, pb.dirs, pb.target, p[k], p[k..]);
      CostSplit(p, k);
      assert Linked(pb, closed, open[j], |closed|) && Linked(pb, closed, open[best], |closed|);
      assert Score(open[best]) <= Score(open[j]);
    }
  }

  lemma WalkPrefix(w: World, dirs: MoveCount, source: Vec2i, p: seq<Vec2i>, k: nat)
    requires IsWalk(w, dirs, source, p) && 0 < k < |p|
    ensures IsWalk(w, dirs, source, p[..k])
    ensures IsWalk(w, dirs, p[k], p[k..])
  {
  }

  lemma PrefixCost(pb: Problem, closed: seq<Rec>, m: nat, i: nat, p: seq<Vec2i>, k: nat)
    requires m < |closed| && i < pb.dirs
    requires NoCheaperWalk(pb.world, pb.dirs, pb.source, closed[m].c, closed[m].g)
    requires IsWalk(pb.world, pb.dirs, pb.source, p) && 0 < k < |p|
    requires p[k - 1] == closed[m].c && p[k] == Neighbour(closed[m].c, i)
    ensures closed[m].g + MoveCost(i) <= Cost(p[..k + 1])
  {
  }

  /** Settled set: the record about to be closed is already at its true distance. */
  lemma PoppedIsSettled(pb: Problem, open: seq<Rec>, closed: seq<Rec>, best: nat)
    requires Wf(pb, open, closed) && Frontier(pb, open, closed, pb.dirs) && Settled(pb, closed)
    requires Consistent(pb.heur, pb.dirs, pb.target)
    requires IsBest(open, best)
    ensures NoCheaperWalk(pb.world, pb.dirs, pb.source, open[best].c, open[best].g)
  {
    forall p | IsWalk(pb.world, pb.dirs, pb.source, p) && Last(p) == open[best].c
      ensures open[best].g <= Cost(p)
    {
      BestOpenBound(pb, open, closed, best, p);
    }
  }

  /** Optimality over the pair of stop cells: both carry the same estimate, so neither can be cheaper than the one popped. */
  lemma StopIsCheapest(pb: Problem, open: seq<Rec>, closed: seq<Rec>, best: nat, p: seq<Vec2i>)
    requires Wf(pb, open, closed) && Frontier(pb, open, closed, pb.dirs) && Settled(pb, closed)
    requires Consistent(pb.heur, pb.dirs, pb.target) && NoStop(pb, closed)
    requires IsBest(open, best) && IsStop(pb.target, open[best].c)
    requires IsWalk(pb.world, pb.dirs, pb.source, p) && IsStop(pb.target, Last(p))
    ensures open[best].g <= Cost(p)
  {
    BestOpenBound(pb, open, closed, best, p);
  }

  /** No closed record scored more than any walk that ends outside the closed set, and none lies beyond the last. */
  ghost predicate Leads(pb: Problem, closed: seq<Rec>) {
    && (forall k, p | 0 <= k < |closed| && IsWalk(pb.world, pb.dirs, pb.source, p) && !Has(closed, Last(p)) ::
          Score(closed[k]) <= Cost(p) + pb.heur(Last(p), pb.target))
    && LastIsFarthest(pb, closed)
  }

  /** The last closed record has the greatest cost and estimate together. */
  ghost predicate LastIsFarthest(pb: Problem, closed: seq<Rec>) {
    forall k | 0 <= k < |closed| ::
      var last := closed[|closed| - 1];
      closed[k].g + pb.heur(closed[k].c, pb.target) <= last.g + pb.heur(last.c, pb.target)
  }

  lemma PopKeepsLeads(pb: Problem, open: seq<Rec>, closed: seq<Rec>, best: nat)
    requires Wf(pb, open, closed) && Frontier(pb, open, closed, pb.dirs) && Settled(pb, closed) && Leads(pb, closed)
    requires Consistent(pb.heur, pb.dirs, pb.target)
    requires IsBest(open, best)
    ensures Leads(pb, closed + [open[best]])
  {
    hide Wf, Frontier, Settled, Consistent, Cost;
    var closed' := closed + [open[best]];
    forall k, p | 0 <= k < |closed'| && IsWalk(pb.world, pb.dirs, pb.source, p) && !Has(closed', Last(p))
      ensures Score(closed'[k]) <= Cost(p) + pb.heur(Last(p), pb.target)
    {
      HasGrows(closed, open[best], Last(p));
      BestOpenBound(pb, open, closed, best, p);
    }
    ClosedAtStop(pb, open, closed, best);
  }

  lemma HasGrows(closed: seq<Rec>, r: Rec, c: Vec2i)
    ensures Has(closed, c) ==> Has(closed + [r], c)
  {
    if Has(closed, c) {
      var k :| 0 <= k < |closed| && closed[k].c == c;
      assert (closed + [r])[k].c == c;
    }
  }

  /** What is closed when a stop cell is popped: every cell whose distance and estimate together stay below those of the
      stop cell, and none for which they exceed them. */
  lemma ClosedAtStop(pb: Problem, open: seq<Rec>, closed: seq<Rec>, best: nat)
    requires Wf(pb, open, closed) && Frontier(pb, open, closed, pb.dirs) && Settled(pb, closed) && Leads(pb, closed)
    requires Consistent(pb.heur, pb.dirs, pb.target) && IsBest(open, best)
    ensures var full := open[best].g + pb.heur(open[best].c, pb.target);
            && (forall p | IsWalk(pb.world, pb.dirs, pb.source, p) && Cost(p) + pb.heur(Last(p), pb.target) < full ::
                  Has(closed, Last(p)))
            && (forall k | 0 <= k < |closed| :: closed[k].g + pb.heur(closed[k].c, pb.target) <= full)
  {
    forall p | IsWalk(pb.world, pb.dirs, pb.source, p) && !Has(closed, Last(p))
      ensures open[best].g + pb.heur(open[best].c, pb.target) <= Cost(p) + pb.heur(Last(p), pb.target)
    {
      ScoreIsFull(pb, open, closed, best, p);
      BestOpenBound(pb, open, closed, best, p);
    }
    forall k | 0 <= k < |closed|
      ensures closed[k].g + pb.heur(closed[k].c, pb.target) <= open[best].g + pb.heur(open[best].c, pb.target)
    {
      ClosedBelow(pb, open, closed, best, k);
    }
  }

  /** The score of an open record counts its estimate, unless it is the source, whose estimate no walk undercuts. */
  lemma ScoreIsFull(pb: Problem, open: seq<Rec>, closed: seq<Rec>, best: nat, p: seq<Vec2i>)
    requires Wf(pb, open, closed) && Consistent(pb.heur, pb.dirs, pb.target) && best < |open|
    requires IsWalk(pb.world, pb.dirs, pb.source, p)
    ensures if closed != [] then Score(open[best]) == open[best].g + pb.heur(open[best].c, pb.target)
            else open[best].g + pb.heur(open[best].c, pb.target) <= Cost(p) + pb.heur(Last(p), pb.target)
  {
    if closed == [] {
      EstimateAlongWalk(pb.heur, pb.world, pb.dirs, pb.target, pb.source, p);
    } else {
      assert Linked(pb, closed, open[best], |closed|);
    }
  }

  lemma ClosedBelow(pb: Problem, open: seq<Rec>, closed: seq<Rec>, best: nat, k: nat)
    requires Wf(pb, open, closed) && Leads(pb, closed) && Consistent(pb.heur, pb.dirs, pb.target)
    requires best < |open| && k < |closed|
    ensures closed[k].g + pb.heur(closed[k].c, pb.target) <= open[best].g + pb.heur(open[best].c, pb.target)
  {
    hide Consistent, IsWalk, Cost;
    OpenChainIsWalk(pb, open, closed, best);
    var q := WalkTo(closed, open[best].parent) + [open[best].c];
    assert Last(q) == open[best].c && !Has(closed, Last(q));
    if k == 0 {
      EstimateAlongWalk(pb.heur, pb.world, pb.dirs, pb.target, pb.source, q);
    } else {
      assert Linked(pb, closed, closed[k], k);
      assert Score(closed[k]) <= Cost(q) + pb.heur(Last(q), pb.target);
    }
  }

  lemma {:induction false} WalkToIsClosed(closed: seq<Rec>, k: int)
    requires -1 <= k < |closed| && ParentsFirst(closed)
    ensures forall i | 0 <= i < |WalkTo(closed, k)| :: Has(closed, WalkTo(closed, k)[i])
    decreases k + 1
  {
    if k == -1 {
    } else {
      WalkToIsClosed(closed, closed[k].parent);
    }
  }

  /** Completeness: once nothing is open, the closed cells are exactly the reachable ones. */
  lemma ExhaustedIsReachable(pb: Problem, closed: seq<Rec>, c: Vec2i)
    requires Wf(pb, [], closed) && Frontier(pb, [], closed, pb.dirs)
    ensures Has(closed, c) <==> Reachable(pb.world, pb.dirs, pb.source, c)
  {
    if Has(closed, c) {
      var k :| 0 <= k < |closed| && closed[k].c == c;
      ChainIsWalk(pb, [], closed, k);
    }
    forall p | IsWalk(pb.world, pb.dirs, pb.source, p)
      ensures Has(closed, Last(p))
    {
      WalkStaysClosed(pb, closed, p);
    }
  }

  lemma {:induction false} WalkStaysClosed(pb: Problem, closed: seq<Rec>, p: seq<Vec2i>)
    requires Wf(pb, [], closed) && Frontier(pb, [], closed, pb.dirs)
    requires IsWalk(pb.world, pb.dirs, pb.source, p)
    ensures Has(closed, Last(p))
    decreases |p|
  {
    hide Linked, Collides, Adjacent, Neighbour, Distinct;
    if |p| == 1 {
      assert closed[0].c == Last(p);
    } else {
      var k := |p| - 1;
      WalkPrefix(pb.world, pb.dirs, pb.source, p, k);
      WalkStaysClosed(pb, closed, p[..k]);
      var m: nat :| m < |closed| && closed[m].c == p[k - 1];
      var i := MoveBetween(pb.world, pb.dirs, pb.source, p, k);
      assert Expanded(pb, [], closed, closed[m], pb.dirs);
      assert Covered([], closed, Neighbour(closed[m].c, i), closed[m].g + MoveCost(i));
    }
  }

  lemma InitialState(pb: Problem)
    ensures Wf(pb, [SourceRec(pb)], []) && Frontier(pb, [SourceRec(pb)], [], pb.dirs)
    ensures NoStop(pb, []) && Settled(pb, []) && Leads(pb, [])
  {
  }

  // ---------- the steps keep the invariant ----------

  /** Moving an open record to the end of the closed list. */
  lemma PopKeeps(pb: Problem, open: seq<Rec>, closed: seq<Rec>, k: nat)
    requires Wf(pb, open, closed) && Frontier(pb, open, closed, pb.dirs) && k < |open|
    ensures var open', closed' := open[..k] + open[k + 1..], closed + [open[k]];
            Wf(pb, open', closed') && Frontier(pb, open', closed', 0)
  {
    PopKeepsWf(pb, open, closed, k);
    var open', closed' := open[..k] + open[k + 1..], closed + [open[k]];
    forall m | 0 <= m < |closed|
      ensures Expanded(pb, open', closed', closed'[m], pb.dirs)
    {
      PopKeepsExpanded(pb, open, closed, k, m);
    }
  }

  lemma PopKeepsWf(pb: Problem, open: seq<Rec>, closed: seq<Rec>, k: nat)
    requires Wf(pb, open, closed) && k < |open|
    ensures Wf(pb, open[..k] + open[k + 1..], closed + [open[k]])
  {
    PopKeepsApart(open, closed, k);
    if closed == [] {
      assert open[..k] + open[k + 1..] == [] && closed + [open[k]] == open;
    } else {
      PopKeepsLinked(pb, open, closed, k);
    }
  }

  lemma PopKeepsLinked(pb: Problem, open: seq<Rec>, closed: seq<Rec>, k: nat)
    requires AllLinked(pb, open, closed) && k < |open|
    ensures AllLinked(pb, open[..k] + open[k + 1..], closed + [open[k]])
  {
  }

  lemma PopKeepsApart(open: seq<Rec>, closed: seq<Rec>, k: nat)
    requires Apart(open, closed) && k < |open|
    ensures Apart(open[..k] + open[k + 1..], closed + [open[k]])
  {
  }

  lemma PopKeepsExpanded(pb: Problem, open: seq<Rec>, closed: seq<Rec>, k: nat, m: nat)
    requires Frontier(pb, open, closed, pb.dirs) && k < |open| && m < |closed|
    ensures Expanded(pb, open[..k] + open[k + 1..], closed + [open[k]], closed[m], pb.dirs)
  {
    var open', closed' := open[..k] + open[k + 1..], closed + [open[k]];
    assert Expanded(pb, open, closed, closed[m], pb.dirs);
    forall i: nat | i < pb.dirs && !Collides(pb.world, Neighbour(closed[m].c, i))
      ensures Covered(open', closed', Neighbour(closed[m].c, i), closed[m].g + MoveCost(i))
    {
      PopCovers(open, closed, k, Neighbour(closed[m].c, i), closed[m].g + MoveCost(i));
    }
  }

  lemma PopCovers(open: seq<Rec>, closed: seq<Rec>, k: nat, c: Vec2i, bound: nat)
    requires k < |open| && Covered(open, closed, c, bound)
    ensures Covered(open[..k] + open[k + 1..], closed + [open[k]], c, bound)
  {
    var open', closed' := open[..k] + open[k + 1..], closed + [open[k]];
    if Has(closed, c) {
      var m :| 0 <= m < |closed| && closed[m].c == c;
      assert closed'[m].c == c;
    } else {
      var j :| 0 <= j < |open| && open[j].c == c && open[j].g <= bound;
      if j == k {
        assert closed'[|closed|].c == c;
      } else {
        assert open'[if j < k then j else j - 1] == open[j];
      }
    }
  }

  /** The record that move `i` out of the last closed record proposes. */
  function Successor(pb: Problem, closed: seq<Rec>, i: nat): Rec
    requires closed != [] && i < pb.dirs
  {
    var cur := closed[|closed| - 1];
    var c := Neighbour(cur.c, i);
    Rec(c, cur.g + MoveCost(i), pb.heur(c, pb.target), |closed| - 1)
  }

  lemma SuccessorLinked(pb: Problem, closed: seq<Rec>, i: nat)
    requires closed != [] && i < pb.dirs
    requires !Collides(pb.world, Successor(pb, closed, i).c)
    ensures Linked(pb, closed, Successor(pb, closed, i), |closed|)
  {
  }

  /** `open'` covers whatever `open` covers. */
  ghost predicate CoversMore(open: seq<Rec>, open': seq<Rec>) {
    forall k | 0 <= k < |open| :: k < |open'| && open'[k].c == open[k].c && open'[k].g <= open[k].g
  }

  lemma FrontierGrows(pb: Problem, open: seq<Rec>, open': seq<Rec>, closed: seq<Rec>, i: nat)
    requires i < pb.dirs && Frontier(pb, open, closed, i) && closed != []
    requires CoversMore(open, open')
    requires var s := Successor(pb, closed, i); Collides(pb.world, s.c) || Covered(open', closed, s.c, s.g)
    ensures Frontier(pb, open', closed, i + 1)
  {
  }

  lemma OpenEstimate(pb: Problem, open: seq<Rec>, closed: seq<Rec>, k: nat)
    requires Wf(pb, open, closed) && closed != [] && k < |open|
    ensures open[k].h == pb.heur(open[k].c, pb.target)
  {
  }

  lemma AppendKeepsWf(pb: Problem, open: seq<Rec>, closed: seq<Rec>, s: Rec)
    requires Apart(open, closed) && AllLinked(pb, open, closed)
    requires Linked(pb, closed, s, |closed|) && !Has(closed, s.c) && !Has(open, s.c)
    ensures Apart(open + [s], closed) && AllLinked(pb, open + [s], closed)
  {
  }

  lemma ReplaceKeepsWf(pb: Problem, open: seq<Rec>, closed: seq<Rec>, k: nat, s: Rec)
    requires Apart(open, closed) && AllLinked(pb, open, closed)
    requires Linked(pb, closed, s, |closed|) && k < |open| && s.c == open[k].c
    ensures Apart(open[k := s], closed) && AllLinked(pb, open[k := s], closed)
  {
  }

  /** A new open record. */
  lemma AddKeeps(pb: Problem, open: seq<Rec>, closed: seq<Rec>, i: nat)
    requires Wf(pb, open, closed) && closed != [] && i < pb.dirs && Frontier(pb, open, closed, i)
    requires var s := Successor(pb, closed, i);
             !Collides(pb.world, s.c) && !Has(closed, s.c) && !Has(open, s.c)
    ensures var open' := open + [Successor(pb, closed, i)];
            Wf(pb, open', closed) && Frontier(pb, open', closed, i + 1)
  {
    var s := Successor(pb, closed, i);
    SuccessorLinked(pb, closed, i);
    AppendKeepsWf(pb, open, closed, s);
    assert (open + [s])[|open|] == s;
    FrontierGrows(pb, open, open + [s], closed, i);
  }

  /** Decrease-key on an open record. */
  lemma LowerKeeps(pb: Problem, open: seq<Rec>, closed: seq<Rec>, i: nat, k: nat)
    requires Wf(pb, open, closed) && closed != [] && i < pb.dirs && Frontier(pb, open, closed, i)
    requires k < |open|
    requires var s := Successor(pb, closed, i);
             !Collides(pb.world, s.c) && open[k].c == s.c && s.g < open[k].g
    ensures var open' := open[k := Successor(pb, closed, i)];
            Wf(pb, open', closed) && Frontier(pb, open', closed, i + 1)
  {
    var s := Successor(pb, closed, i);
    SuccessorLinked(pb, closed, i);
    ReplaceKeepsWf(pb, open, closed, k, s);
    assert open[k := s][k] == s;
    FrontierGrows(pb, open, open[k := s], closed, i);
  }

  /** A neighbour that collides, is closed, or is open at no greater cost. */
  lemma SkipKeeps(pb: Problem, open: seq<Rec>, closed: seq<Rec>, i: nat)
    requires closed != [] && i < pb.dirs && Frontier(pb, open, closed, i)
    requires var s := Successor(pb, closed, i);
             Collides(pb.world, s.c) || Covered(open, closed, s.c, s.g)
    ensures Frontier(pb, open, closed, i + 1)
  {
  }

  // ---------- the closed set is bounded ----------

  /** The only cells that can ever be closed: the free cells of the grid and the source. */
  ghost function Universe(pb: Problem): set<Vec2i> {
    (set x: int, y: int | 0 <= x < pb.world.size.x && 0 <= y < pb.world.size.y :: Vec2i(x, y)) + {pb.source}
  }

  ghost function Cells(rs: seq<Rec>): set<Vec2i> {
    set k | 0 <= k < |rs| :: rs[k].c
  }

  lemma CellsSnoc(rs: seq<Rec>, r: Rec)
    ensures Cells(rs + [r]) == Cells(rs) + {r.c}
  {
    assert (rs + [r])[|rs|] == r;
    assert forall k | 0 <= k < |rs| :: (rs + [r])[k] == rs[k];
  }

  ghost function CostOf(rs: seq<Rec>, c: Vec2i): nat
    requires c in Cells(rs)
  {
    var k :| 0 <= k < |rs| && rs[k].c == c;
    rs[k].g
  }

  /** Under a consistent heuristic the closed list is a table of true distances. */
  lemma SettledDistances(pb: Problem, open: seq<Rec>, closed: seq<Rec>)
    requires Wf(pb, open, closed)
    ensures Settled(pb, closed) ==>
              forall c | c in Cells(closed) :: IsDistance(pb.world, pb.dirs, pb.source, c, CostOf(closed, c))
  {
    if Settled(pb, closed) {
      forall c | c in Cells(closed)
        ensures IsDistance(pb.world, pb.dirs, pb.source, c, CostOf(closed, c))
      {
        var k :| 0 <= k < |closed| && closed[k].c == c && closed[k].g == CostOf(closed, c);
        ChainIsWalk(pb, open, closed, k);
      }
    }
  }

  lemma ClosedWithinUniverse(pb: Problem, open: seq<Rec>, closed: seq<Rec>)
    requires Wf(pb, open, closed)
    ensures Cells(closed) <= Universe(pb) && Cells(open) <= Universe(pb)
    ensures Cells(closed) !! Cells(open)
  {
  }

  lemma {:induction false} DistinctCount(rs: seq<Rec>)
    requires Distinct(rs)
    ensures |Cells(rs)| == |rs|
    decreases |rs|
  {
    if rs == [] {
      assert Cells(rs) == {};
    } else {
      var k := |rs| - 1;
      DistinctCount(rs[..k]);
      CellsSnoc(rs[..k], rs[k]);
      assert rs[..k] + [rs[k]] == rs;
    }
  }

  ghost function Row(x: int, n: nat): set<Vec2i> {
    set y: int | 0 <= y < n :: Vec2i(x, y)
  }

  ghost function Rows(m: nat, n: nat): set<Vec2i> {
    set x: int, y: int | 0 <= x < m && 0 <= y < n :: Vec2i(x, y)
  }

  lemma {:induction false} RowSize(x: int, n: nat)
    ensures |Row(x, n)| == n
  {
    if n == 0 {
      assert Row(x, n) == {};
    } else {
      RowSize(x, n - 1);
      assert Row(x, n) == Row(x, n - 1) + {Vec2i(x, n - 1)};
    }
  }

  lemma {:induction false} RowsSize(m: nat, n: nat)
    ensures |Rows(m, n)| == m * n
  {
    if m == 0 {
      assert Rows(m, n) == {};
    } else {
      RowsSize(m - 1, n);
      RowSize(m - 1, n);
      assert Rows(m, n) == Rows(m - 1, n) + Row(m - 1, n);
      assert (m - 1) * n + n == m * n;
    }
  }

  /** Every cost the search ever stores is bounded by the size of the grid, so a 32-bit cost
      cannot wrap while 14 * (rows * columns + 1) fits in it. */
  lemma CostsFit(pb: Problem, open: seq<Rec>, closed: seq<Rec>, rows: nat, columns: nat)
    requires Wf(pb, open, closed) && pb.world.size == Vec2i(rows, columns)
    ensures |closed| <= rows * columns + 1
    ensures forall k | 0 <= k < |open| :: open[k].g <= 14 * (rows * columns + 1)
    ensures forall k | 0 <= k < |closed| :: closed[k].g <= 14 * (rows * columns + 1)
  {
    ClosedWithinUniverse(pb, open, closed);
    DistinctCount(closed);
    RowsSize(rows, columns);
    assert Universe(pb) == Rows(rows, columns) + {pb.source};
    SubsetSize(Cells(closed), Universe(pb));
    forall k | 0 <= k < |closed|
      ensures closed[k].g <= 14 * (rows * columns + 1)
    {
      CostBound(pb, open, closed, k);
    }
    forall k | 0 <= k < |open|
      ensures open[k].g <= 14 * (rows * columns + 1)
    {
      if closed != [] {
        assert Linked(pb, closed, open[k], |closed|);
        CostBound(pb, open, closed, open[k].parent);
      }
    }
  }

  predicate InGrid(w: World, c: Vec2i) {
    0 <= c.x < w.size.x && 0 <= c.y < w.size.y
  }

  lemma RecordInGrid(pb: Problem, open: seq<Rec>, closed: seq<Rec>, r: Rec)
    requires Wf(pb, open, closed) && (r in open || r in closed)
    ensures r.h == 0 || (InGrid(pb.world, r.c) && r.h == pb.heur(r.c, pb.target))
  {
    hide Distinct, Adjacent;
    if closed != [] {
      if r in closed {
        var k :| 0 <= k < |closed| && closed[k] == r;
        assert k > 0 ==> Linked(pb, closed, closed[k], k);
      } else {
        var k :| 0 <= k < |open| && open[k] == r;
        assert Linked(pb, closed, open[k], |closed|);
      }
    }
  }

  /** What the search compares is bounded too: for a target inside the grid a cost and an estimate together stay below
      14 * (rows * columns + 1) + 10 * (rows + columns). */
  lemma ScoresFit(pb: Problem, open: seq<Rec>, closed: seq<Rec>, rows: nat, columns: nat, r: Rec)
    requires Wf(pb, open, closed) && pb.world.size == Vec2i(rows, columns) && InGrid(pb.world, pb.target)
    requires pb.heur == Manhattan || pb.heur == Octagonal
    requires r in open || r in closed
    ensures Score(r) <= 14 * (rows * columns + 1) + 10 * (rows + columns)
  {
    hide Wf;
    CostsFit(pb, open, closed, rows, columns);
    RecordInGrid(pb, open, closed, r);
    assert r.g <= 14 * (rows * columns + 1);
    if r.h != 0 {
      EstimateInGrid(pb.world, r.c, pb.target);
    }
  }

  lemma EstimateInGrid(w: World, c: Vec2i, target: Vec2i)
    requires InGrid(w, c) && InGrid(w, target)
    ensures Manhattan(c, target) <= 10 * (w.size.x + w.size.y) && Octagonal(c, target) <= 10 * (w.size.x + w.size.y)
  {
  }
}
