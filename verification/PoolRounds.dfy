/** What the manager's orders come to: over any interleaving, exit orders are obeyed and growing rounds fill the pool. */
module PoolRounds {
  import opened Basics
  import opened Options
  import opened PoolModel

  function Min(a: int, b: int): int {
    if a < b then a else b
  }

  // ---------- nobody is stuck ----------

  /** The worker the event is a step of. */
  predicate IsStepOf(e: Event, tid: Tid) {
    !e.AddTask? && !e.ManagerAcquire? && !e.ManagerStep? && e.tid == tid
  }

  /** Whoever has the lock can go on, and when nobody has it so can everybody; a thread that neither has it nor wants it
      can go on at any time. */
  lemma NobodyIsStuck(s: State, min: nat, max: nat)
    requires Reached(s, min, max)
    ensures forall t | t in s.workers &&
                       (s.lock == Nobody || s.lock == Worker(t) || s.workers[t].Running? || s.workers[t].Clearing?) ::
              exists e :: IsStepOf(e, t) && Enabled(s, e)
    ensures s.lock == Nobody || s.lock == Manager || s.manager.Deciding? || s.manager.Trimming? ==>
              Enabled(s, ManagerAcquire) || exists born :: Enabled(s, ManagerStep(born))
  {
    hide Good, Enabled, IsStepOf;
    ReachedIsGood(s, min, max);
    GoodHasLock(s);
    forall t | t in s.workers &&
               (s.lock == Nobody || s.lock == Worker(t) || s.workers[t].Running? || s.workers[t].Clearing?)
      ensures exists e :: IsStepOf(e, t) && Enabled(s, e)
    {
      WorkerMoves(s, t);
    }
    ManagerMoves(s);
  }

  lemma WorkerMoves(s: State, t: Tid)
    requires LockOk(s) && t in s.workers
    requires s.lock == Nobody || s.lock == Worker(t) || s.workers[t].Running? || s.workers[t].Clearing?
    ensures exists e :: IsStepOf(e, t) && Enabled(s, e)
  {
    var e := NextOf(t, s.workers[t]);
    assert IsStepOf(e, t) && Enabled(s, e);
  }

  lemma ManagerMoves(s: State)
    requires LockOk(s)
    ensures s.lock == Nobody || s.lock == Manager || s.manager.Deciding? || s.manager.Trimming? ==>
              Enabled(s, ManagerAcquire) || exists born :: Enabled(s, ManagerStep(born))
  {
    var born := Unused(s.workers.Keys);
    assert s.lock == Nobody || s.lock == Manager || s.manager.Deciding? || s.manager.Trimming? ==>
             Enabled(s, ManagerAcquire) || Enabled(s, ManagerStep(born));
  }

  function NextOf(t: Tid, pc: Pc): Event {
    match pc
    case AtTop => Acquire(t)
    case Returned => Acquire(t)
    case Waiting => Acquire(t)
    case Checking => Check(t)
    case Woken => ExitTest(t)
    case Taking => Take(t)
    case Took(_, _) => Go(t)
    case Running(_, _) => Return(t)
    case Settling => Settle(t)
    case Clearing(_) => Clear(t)
  }

  /** There is always an identity not in use. */
  lemma Unused(used: set<Tid>) returns (t: Tid)
    ensures t != 0 && t !in used
  {
    t := Above(used);
  }

  lemma {:induction false} Above(used: set<Tid>) returns (t: Tid)
    ensures t != 0 && forall u | u in used :: u < t
  {
    if used == {} {
      t := 1;
    } else {
      var u :| u in used;
      var v := Above(used - {u});
      t := if v <= u then u + 1 else v;
      assert forall w | w in used :: w == u || w in used - {u};
    }
  }

  // ---------- leaving ----------

  function ExitTests(es: seq<Event>): nat {
    if es == [] then 0 else (if es[0].ExitTest? then 1 else 0) + ExitTests(es[1..])
  }

  lemma {:induction false} HistoryGrows(s: State, es: seq<Event>)
    requires LegalRun(s, es)
    ensures s.h.shrinks <= Run(s, es).h.shrinks && s.h.created <= Run(s, es).h.created
    decreases |es|
  {
    if es == [] {
    } else {
      HistoryGrows(Step(s, es[0]), es[1..]);
    }
  }

  /** While the pool is that far above its minimum, and until the next order, every exit test with an order left makes one
      worker leave and uses one order up. */
  lemma {:induction false} OrdersObeyed(s: State, es: seq<Event>)
    requires LegalRun(s, es) && 0 <= s.exitNum <= s.alive - s.min
    requires Run(s, es).h.shrinks == s.h.shrinks
    ensures var left, k := Run(s, es), Min(ExitTests(es), s.exitNum);
            && left.exitNum == s.exitNum - k && left.h.retired == s.h.retired + k
            && left.alive == s.alive - k + (left.h.created - s.h.created)
    decreases |es|
  {
    if es == [] {
    } else {
      var s' := Step(s, es[0]);
      HistoryGrows(s', es[1..]);
      OneOrder(s, es[0]);
      OrdersObeyed(s', es[1..]);
    }
  }

  lemma OneOrder(s: State, e: Event)
    requires Enabled(s, e) && 0 <= s.exitNum <= s.alive - s.min && Step(s, e).h.shrinks == s.h.shrinks
    ensures var s', k := Step(s, e), if e.ExitTest? && s.exitNum > 0 then 1 else 0;
            && s'.min == s.min && s'.exitNum == s.exitNum - k && s'.h.retired == s.h.retired + k
            && s.h.created <= s'.h.created && s'.alive == s.alive - k + (s'.h.created - s.h.created)
  {
  }

  /** A shrinking round at two above the minimum or more: by the second exit test two workers have left, whatever else
      happens, as long as no other round begins. */
  lemma ShrinkRetiresTwo(s: State, born: Tid, es: seq<Event>)
    requires s.manager.Shrinking? && Enabled(s, ManagerStep(born)) && s.alive >= s.min + 2
    requires LegalRun(Step(s, ManagerStep(born)), es)
    requires Run(Step(s, ManagerStep(born)), es).h.shrinks == s.h.shrinks + 1
    ensures var left := Run(Step(s, ManagerStep(born)), es);
            && left.h.retired == s.h.retired + Min(ExitTests(es), 2) && left.exitNum == 2 - Min(ExitTests(es), 2)
            && left.alive == s.alive - Min(ExitTests(es), 2) + (left.h.created - s.h.created)
  {
    OrdersObeyed(Step(s, ManagerStep(born)), es);
  }

  // ---------- growing ----------

  function FreeFrom(ids: seq<Tid>, i: nat): (n: nat)
    decreases |ids| - i
  {
    if i >= |ids| then 0 else (if ids[i] == 0 then 1 else 0) + FreeFrom(ids, i + 1)
  }

  /** What a growing loop still owes: up to two workers in all, no more than the pool may have, and no more than there
      are slots ahead. */
  function Owed(s: State): int
    requires s.manager.Growing?
  {
    Min(2 - s.manager.num, Min(s.max - s.alive, FreeFrom(s.ids, s.manager.i)))
  }

  lemma {:induction false} FreeingFrees(ids: seq<Tid>, j: nat, i: nat)
    requires j < |ids|
    ensures FreeFrom(ids[j := 0], i) >= FreeFrom(ids, i)
    decreases |ids| - i
  {
    if i >= |ids| {
    } else {
      FreeingFrees(ids, j, i + 1);
    }
  }

  lemma {:induction false} FillingElsewhere(ids: seq<Tid>, j: nat, t: Tid, i: nat)
    requires j < i && j < |ids|
    ensures FreeFrom(ids[j := t], i) == FreeFrom(ids, i)
    decreases |ids| - i
  {
    if i >= |ids| {
    } else {
      FillingElsewhere(ids, j, t, i + 1);
    }
  }

  lemma StepKeepsPromise(s: State, e: Event)
    requires Enabled(s, e) && LockOk(s) && s.manager.Growing?
    ensures var s' := Step(s, e);
            && s'.h.created >= s.h.created
            && s'.h.created + (if s'.manager.Growing? then Owed(s') else 0) >= s.h.created + Owed(s)
  {
    if e.Clear? {
      var i := s.workers[e.tid].i;
      if i < |s.ids| {
        FreeingFrees(s.ids, i, s.manager.i);
      }
    } else if e.ManagerStep? && s.manager.i < |s.ids| {
      FillingElsewhere(s.ids, s.manager.i, e.born, s.manager.i + 1);
    }
  }

  lemma {:induction false} RunKeepsPromise(s: State, es: seq<Event>)
    requires Good(s) && LegalRun(s, es) && s.manager.Growing? && !Run(s, es).manager.Growing?
    ensures Run(s, es).h.created >= s.h.created + Owed(s)
    decreases |es|
  {
    hide Good, Step, Owed, Enabled;
    if es == [] {
    } else {
      var s' := Step(s, es[0]);
      StepKeeps(s, es[0]);
      GoodHasLock(s);
      StepKeepsPromise(s, es[0]);
      if s'.manager.Growing? {
        RunKeepsPromise(s', es[1..]);
      } else {
        HistoryGrows(s', es[1..]);
      }
    }
  }

  lemma GoodHasLock(s: State)
    requires Good(s)
    ensures LockOk(s)
  {
  }

  lemma {:induction false} FreeAndOccupied(ids: seq<Tid>, i: nat)
    requires i <= |ids|
    ensures FreeFrom(ids, i) + |OccupiedFrom(ids, i)| == |ids| - i
    decreases |ids| - i
  {
    if i == |ids| {
      assert OccupiedFrom(ids, i) == {};
    } else {
      FreeAndOccupied(ids, i + 1);
      if ids[i] == 0 {
        assert OccupiedFrom(ids, i) == OccupiedFrom(ids, i + 1);
      } else {
        assert OccupiedFrom(ids, i) == OccupiedFrom(ids, i + 1) + {i};
      }
    }
  }

  function OccupiedFrom(ids: seq<Tid>, i: nat): set<nat> {
    set j: nat | i <= j < |ids| && ids[j] != 0
  }

  /** A growing round that has begun creates two workers, or as many as the pool may still have, counting those on their
      way out; whatever the other threads do meanwhile. */
  lemma GrowRoundCreates(s: State, min: nat, max: nat, es: seq<Event>)
    requires Reached(s, min, max) && s.manager.GrowWanted? && Enabled(s, ManagerAcquire)
    requires LegalRun(Step(s, ManagerAcquire), es) && !Run(Step(s, ManagerAcquire), es).manager.Growing?
    ensures Run(Step(s, ManagerAcquire), es).h.created
            >= s.h.created + Min(2, max - s.alive - |ClearingSet(s.workers)|)
  {
    hide Good, LegalRun, Run, Owed, Enabled, Step, ClearingSet;
    ReachedIsGood(s, min, max);
    StepKeeps(s, ManagerAcquire);
    OwedAtFirst(s, min, max);
    RunKeepsPromise(Step(s, ManagerAcquire), es);
  }

  /** What a growing loop owes when it begins. */
  lemma OwedAtFirst(s: State, min: nat, max: nat)
    requires Reached(s, min, max) && s.manager.GrowWanted? && Enabled(s, ManagerAcquire)
    ensures var s' := Step(s, ManagerAcquire);
            && s'.manager.Growing? && s'.h.created == s.h.created
            && Owed(s') == Min(2, max - s.alive - |ClearingSet(s.workers)|)
  {
    hide Good, Reached;
    ReachedIsGood(s, min, max);
    CountersHold(s, min, max);
    SlotCount(s);
    FreeAndOccupied(s.ids, 0);
    assert OccupiedFrom(s.ids, 0) == Occupied(s.ids);
  }

  lemma SlotCount(s: State)
    requires Good(s)
    ensures |s.ids| == s.max
  {
  }
}
