/** The pool object itself: the fields its threads share, and each atomic step as the code that changes them. Where each
    thread stands, who has the lock and what an observer would note are fields beside the source's own. */
module ThreadPools {
  import opened Options
  import opened PoolModel

  class TaskQueue {
    var queue: seq<Job>

    constructor ()
      ensures queue == []
    {
      queue := [];
    }

    method AddTask(job: Job)
      modifies this
      ensures queue == old(queue) + [job]
    {
      queue := queue + [job];
    }

    /** The oldest task, or the empty one. */
    method TakeTask() returns (job: Option<Job>)
      modifies this
      ensures if old(queue) == [] then job == None && queue == [] else job.Some? && old(queue) == [job.value] + queue
      ensures (job, queue) == PoolModel.TakeTask(old(queue))
    {
      job := None;
      if queue != [] {
        job := Some(queue[0]);
        queue := queue[1..];
      }
    }
  }

  class ThreadPool {
    const taskQ: TaskQueue
    const threadIDs: array<Tid>
    const minNum: nat
    const maxNum: nat
    var busyNum: int
    var aliveNum: int
    var exitNum: int
    var workers: map<Tid, Pc>
    var lock: Holder
    var manager: ManagerPc
    var h: History

    ghost function View(): State
      reads this, taskQ, threadIDs
    {
      State(minNum, maxNum, threadIDs[..], workers, lock, manager, taskQ.queue, aliveNum, busyNum, exitNum, h)
    }

    ghost predicate Valid()
      reads this, taskQ, threadIDs
    {
      Good(View())
    }

    /** `ids` are the identities the created threads get. */
    constructor (min: nat, max: nat, ids: seq<Tid>)
      requires |ids| == min <= max && Distinct(ids)
      ensures fresh(taskQ) && fresh(threadIDs)
      ensures Valid() && View() == Start(min, max, ids)
    {
      hide Good;
      taskQ := new TaskQueue();
      minNum := min;
      maxNum := max;
      busyNum := 0;
      aliveNum := min;
      exitNum := 0;
      var slots := new Tid[max](_ => 0);
      threadIDs := slots;
      workers := Fresh(ids);
      lock := Nobody;
      manager := Asleep;
      h := History([], [], {}, 0, 0, 0, 0);
      new;
      var i := 0;
      while i < min
        modifies threadIDs
        invariant 0 <= i <= min
        invariant threadIDs[..] == Slots(ids[..i], max)
      {
        threadIDs[i] := ids[i];
        i := i + 1;
      }
      assert ids[..min] == ids;
      StartIsGood(min, max, ids);
    }

    method AddTask(job: Job)
      requires Valid()
      modifies taskQ, this`h
      ensures Valid() && View() == Step(old(View()), PoolModel.AddTask(job))
      ensures taskQ.queue == old(taskQ.queue) + [job]
    {
      hide Good;
      StepKeeps(View(), PoolModel.AddTask(job));
      taskQ.AddTask(job);
      h := h.(added := h.added + [job]);
    }

    /** The lock is granted to a worker that wants it, be it because a wait ended. */
    method Acquire(tid: Tid)
      requires Valid() && Enabled(View(), PoolModel.Acquire(tid))
      modifies this`workers, this`lock
      ensures Valid() && View() == Step(old(View()), PoolModel.Acquire(tid))
      ensures old(lock) == Nobody && lock == Worker(tid) && tid in old(workers)
      ensures workers == old(workers)[tid := workers[tid]]
      ensures workers[tid] == if old(workers)[tid] == AtTop then Checking
                              else if old(workers)[tid] == Returned then Settling else Woken
    {
      hide Good;
      StepKeeps(View(), PoolModel.Acquire(tid));
      var pc := match workers[tid]
                case AtTop => Checking
                case Returned => Settling
                case _ => Woken;
      workers := workers[tid := pc];
      lock := Worker(tid);
    }

    /** Waits, giving up the lock, when there is nothing to do. */
    method Check(tid: Tid) returns (wait: bool)
      requires Valid() && Enabled(View(), PoolModel.Check(tid))
      modifies this`workers, this`lock
      ensures Valid() && View() == Step(old(View()), PoolModel.Check(tid)) && (wait <==> old(taskQ.queue) == [])
      ensures workers == old(workers)[tid := if wait then Waiting else Taking]
      ensures lock == if wait then Nobody else Worker(tid)
    {
      hide Good;
      HolderHasLock(View(), tid);
      StepKeeps(View(), PoolModel.Check(tid));
      wait := |taskQ.queue| == 0;
      workers := workers[tid := if wait then Waiting else Taking];
      lock := if wait then Nobody else lock;
    }

    /** Consumes an exit order and says whether the worker leaves. */
    method TestExit(tid: Tid) returns (leave: bool)
      requires Valid() && Enabled(View(), ExitTest(tid))
      modifies this`exitNum, this`aliveNum, this`workers, this`lock, this`h
      ensures Valid() && View() == Step(old(View()), ExitTest(tid))
      ensures exitNum == if old(exitNum) > 0 then old(exitNum) - 1 else 0
      ensures leave <==> old(exitNum) > 0 && old(aliveNum) > minNum
      ensures aliveNum == old(aliveNum) - (if leave then 1 else 0)
      ensures workers == old(workers)[tid := if leave then Clearing(0) else Checking]
      ensures lock == if leave then Nobody else Worker(tid)
    {
      hide Good;
      HolderHasLock(View(), tid);
      StepKeeps(View(), ExitTest(tid));
      leave := false;
      if exitNum > 0 {
        exitNum := exitNum - 1;
        if aliveNum > minNum {
          aliveNum := aliveNum - 1;
          leave := true;
        }
      }
      workers := workers[tid := if leave then Clearing(0) else Checking];
      lock := if leave then Nobody else lock;
      h := if leave then h.(retired := h.retired + 1) else h;
    }

    /** What a worker past its wait loop takes is never the empty task. */
    method Take(tid: Tid) returns (job: Option<Job>)
      requires Valid() && Enabled(View(), PoolModel.Take(tid))
      modifies taskQ, this`workers, this`h
      ensures Valid() && View() == Step(old(View()), PoolModel.Take(tid))
      ensures job.Some? && old(taskQ.queue) == [job.value] + taskQ.queue
      ensures workers == old(workers)[tid := Took(job, |old(h).started|)]
    {
      hide Good;
      StepKeeps(View(), PoolModel.Take(tid));
      QueueHasTask(View(), tid);
      job := taskQ.TakeTask();
      workers := workers[tid := Took(job, |h.started|)];
      h := h.(started := if job.Some? then h.started + [job.value] else h.started);
    }

    method BeginWork(tid: Tid)
      requires Valid() && Enabled(View(), Go(tid))
      modifies this`busyNum, this`workers, this`lock
      ensures Valid() && View() == Step(old(View()), Go(tid))
      ensures busyNum == old(busyNum) + 1 && lock == Nobody && tid in old(workers) && old(workers)[tid].Took?
      ensures workers == old(workers)[tid := Running(old(workers)[tid].job, old(workers)[tid].n)]
    {
      hide Good;
      StepKeeps(View(), Go(tid));
      busyNum := busyNum + 1;
      workers := workers[tid := Running(workers[tid].job, workers[tid].n)];
      lock := Nobody;
    }

    method Return(tid: Tid)
      requires Valid() && Enabled(View(), PoolModel.Return(tid))
      modifies this`workers, this`h
      ensures Valid() && View() == Step(old(View()), PoolModel.Return(tid))
      ensures workers == old(workers)[tid := Returned]
    {
      hide Good;
      StepKeeps(View(), PoolModel.Return(tid));
      h := h.(finished := h.finished + {workers[tid].n});
      workers := workers[tid := Returned];
    }

    method Settle(tid: Tid)
      requires Valid() && Enabled(View(), PoolModel.Settle(tid))
      modifies this`busyNum, this`workers, this`lock
      ensures Valid() && View() == Step(old(View()), PoolModel.Settle(tid))
      ensures busyNum == old(busyNum) - 1 && lock == Nobody && workers == old(workers)[tid := AtTop]
    {
      hide Good;
      StepKeeps(View(), PoolModel.Settle(tid));
      busyNum := busyNum - 1;
      workers := workers[tid := AtTop];
      lock := Nobody;
    }

    /** One turn of the leaving thread's scan, `ended` when it was the last; the index never leaves the array. */
    method Clear(tid: Tid, i: nat) returns (ended: bool)
      requires tid in workers && workers[tid] == Clearing(i)
      requires Valid() && Enabled(View(), PoolModel.Clear(tid))
      modifies threadIDs, this`workers
      ensures Valid() && View() == Step(old(View()), PoolModel.Clear(tid)) && (ended <==> tid !in workers)
      ensures i < |old(threadIDs[..])| && (ended <==> old(threadIDs[..])[i] == tid)
      ensures threadIDs[..] == if ended then old(threadIDs[..])[i := 0] else old(threadIDs[..])
      ensures workers == if ended then old(workers) - {tid} else old(workers)[tid := Clearing(i + 1)]
    {
      hide Good;
      StepKeeps(View(), PoolModel.Clear(tid));
      ScanGoesOn(View(), tid);
      ended := threadIDs[i] == tid;
      if ended {
        threadIDs[i] := 0;
      }
      workers := if ended then workers - {tid} else workers[tid := Clearing(i + 1)];
    }

    method ManagerAcquire()
      requires Valid() && Enabled(View(), PoolModel.ManagerAcquire)
      modifies this`manager, this`lock, this`h
      ensures Valid() && View() == Step(old(View()), PoolModel.ManagerAcquire)
      ensures old(lock) == Nobody && lock == Manager
      ensures manager == if old(manager).GrowWanted? then Growing(old(manager).snap, 0, 0)
                         else if old(manager).ShrinkWanted? then Shrinking else Counting
    {
      hide Good;
      StepKeeps(View(), PoolModel.ManagerAcquire);
      lock := Manager;
      if manager.GrowWanted? {
        h := h.(grows := h.grows + 1);
      }
      manager := match manager
                 case GrowWanted(snap) => Growing(snap, 0, 0)
                 case ShrinkWanted => Shrinking
                 case _ => Counting;
    }

    /** The counts the manager decides on after it has given the lock up. */
    method Count(ghost born: Tid) returns (snap: Snapshot)
      requires Valid() && manager.Counting? && Enabled(View(), ManagerStep(born))
      modifies this`manager, this`lock
      ensures Valid() && View() == Step(old(View()), ManagerStep(born)) && manager == Deciding(snap)
      ensures snap == Snapshot(|taskQ.queue|, aliveNum, busyNum) && lock == Nobody
    {
      hide Good;
      StepKeeps(View(), ManagerStep(born));
      snap := Snapshot(|taskQ.queue|, aliveNum, busyNum);
      manager, lock := Deciding(snap), Nobody;
    }

    /** Whether to grow, judged on counts that may be out of date by now. */
    method DecideGrow(snap: Snapshot, ghost born: Tid) returns (grow: bool)
      requires Valid() && manager == Deciding(snap) && Enabled(View(), ManagerStep(born))
      modifies this`manager
      ensures Valid() && View() == Step(old(View()), ManagerStep(born))
      ensures grow <==> snap.queued > snap.live - snap.busy && snap.live < maxNum
      ensures manager == if grow then GrowWanted(snap) else Trimming(snap)
    {
      hide Good;
      StepKeeps(View(), ManagerStep(born));
      grow := snap.queued > snap.live - snap.busy && snap.live < maxNum;
      manager := if grow then GrowWanted(snap) else Trimming(snap);
    }

    method DecideShrink(snap: Snapshot, ghost born: Tid) returns (shrink: bool)
      requires Valid() && manager == Trimming(snap) && Enabled(View(), ManagerStep(born))
      modifies this`manager
      ensures Valid() && View() == Step(old(View()), ManagerStep(born))
      ensures shrink <==> snap.busy + 3 < snap.live && snap.live > minNum
      ensures manager == if shrink then ShrinkWanted else Asleep
    {
      hide Good;
      StepKeeps(View(), ManagerStep(born));
      shrink := snap.busy + 3 < snap.live && snap.live > minNum;
      manager := if shrink then ShrinkWanted else Asleep;
    }

    /** One turn of the growing loop, `more` as long as it goes on. */
    method GrowTurn(snap: Snapshot, i: nat, num: nat, born: Tid) returns (more: bool)
      requires Valid() && manager == Growing(snap, i, num) && Enabled(View(), ManagerStep(born))
      modifies threadIDs, this`aliveNum, this`workers, this`manager, this`lock, this`h
      ensures Valid() && View() == Step(old(View()), ManagerStep(born)) && (more <==> manager.Growing?)
      ensures more <==> i < maxNum && num < 2 && old(aliveNum) < maxNum
      ensures var create := more && i < |old(threadIDs[..])| && old(threadIDs[..])[i] == 0;
              && threadIDs[..] == (if create then old(threadIDs[..])[i := born] else old(threadIDs[..]))
              && aliveNum == old(aliveNum) + (if create then 1 else 0)
              && workers == (if create then old(workers)[born := AtTop] else old(workers))
              && manager == if create then Growing(snap, i + 1, num + 1)
                            else if more then Growing(snap, i + 1, num) else Trimming(snap)
      ensures lock == if more then Manager else Nobody
    {
      hide Good;
      StepKeeps(View(), ManagerStep(born));
      SlotsAreMax(View());
      ManagerHasLock(View());
      more := i < maxNum && num < BATCH && aliveNum < maxNum;
      if more {
        if threadIDs[i] == 0 {
          threadIDs[i] := born;
          aliveNum := aliveNum + 1;
          workers := workers[born := AtTop];
          manager := Growing(snap, i + 1, num + 1);
          h := h.(created := h.created + 1);
        } else {
          manager := Growing(snap, i + 1, num);
        }
      } else {
        lock := Nobody;
        manager := Trimming(snap);
      }
    }

    /** Orders two workers to leave; an unconsumed order is overwritten, not added to. */
    method OrderExits(ghost born: Tid)
      requires Valid() && manager.Shrinking? && Enabled(View(), ManagerStep(born))
      modifies this`exitNum, this`manager, this`lock, this`h
      ensures Valid() && View() == Step(old(View()), ManagerStep(born))
      ensures exitNum == 2 && lock == Nobody && manager == Asleep
    {
      hide Good;
      StepKeeps(View(), ManagerStep(born));
      exitNum := BATCH;
      manager, lock, h := Asleep, Nobody, h.(shrinks := h.shrinks + 1);
    }

    /** Whatever thread moves next. */
    method Perform(e: Event)
      requires Valid() && Enabled(View(), e)
      modifies this, taskQ, threadIDs
      ensures Valid() && View() == Step(old(View()), e)
    {
      hide Good, Step;
      match e
      case AddTask(job) => AddTask(job);
      case Acquire(tid) => Acquire(tid);
      case Check(tid) => var _ := Check(tid);
      case ExitTest(tid) => var _ := TestExit(tid);
      case Take(tid) => var _ := Take(tid);
      case Go(tid) => BeginWork(tid);
      case Return(tid) => Return(tid);
      case Settle(tid) => Settle(tid);
      case Clear(tid) => var _ := Clear(tid, workers[tid].i);
      case ManagerAcquire => ManagerAcquire();
      case ManagerStep(born) => ManagerMoves(born);
    }

    method ManagerMoves(born: Tid)
      requires Valid() && Enabled(View(), ManagerStep(born))
      modifies this, threadIDs
      ensures Valid() && View() == Step(old(View()), ManagerStep(born))
    {
      hide Good, Step;
      match manager
      case Counting => var _ := Count(born);
      case Deciding(snap) => var _ := DecideGrow(snap, born);
      case Growing(snap, i, num) => var _ := GrowTurn(snap, i, num, born);
      case Trimming(snap) => var _ := DecideShrink(snap, born);
      case Shrinking => OrderExits(born);
    }

    /** Any interleaving: the object goes where the model goes. */
    method Run(es: seq<Event>)
      requires Valid() && LegalRun(View(), es)
      modifies this, taskQ, threadIDs
      ensures Valid() && View() == PoolModel.Run(old(View()), es)
    {
      hide Good, Step, Enabled;
      ghost var goal := PoolModel.Run(View(), es);
      assert es[0..] == es;
      for k := 0 to |es|
        invariant Valid() && LegalRun(View(), es[k..]) && PoolModel.Run(View(), es[k..]) == goal
      {
        assert es[k..][0] == es[k] && es[k..][1..] == es[k + 1..];
        Perform(es[k]);
      }
      assert es[|es|..] == [];
    }
  }

  /** A pool made and run: after any interleaving its own counters mean what they say, its tasks are all accounted for,
      and no worker holds the empty task. */
  method MakeAndRun(min: nat, max: nat, ids: seq<Tid>, es: seq<Event>) returns (pool: ThreadPool)
    requires |ids| == min <= max && Distinct(ids) && LegalRun(Start(min, max, ids), es)
    ensures fresh(pool) && pool.View() == PoolModel.Run(Start(min, max, ids), es)
    ensures min <= pool.aliveNum <= max && 0 <= pool.busyNum <= pool.aliveNum && 0 <= pool.exitNum <= 2
    ensures pool.aliveNum == |AliveSet(pool.workers)| && pool.busyNum == |BusySet(pool.workers)|
    ensures pool.h.added == pool.h.started + pool.taskQ.queue
    ensures forall t | t in pool.workers && HasTicket(pool.workers[t]) :: pool.workers[t].job.Some?
  {
    hide Good, LegalRun, PoolModel.Run;
    pool := new ThreadPool(min, max, ids);
    pool.Run(es);
    ghost var s := pool.View();
    assert Reached(s, min, max);
    CountersHold(s, min, max);
    TasksConserved(s, min, max);
  }

  lemma SlotsAreMax(s: State)
    requires Good(s)
    ensures |s.ids| == s.max
  {
  }

  lemma HolderHasLock(s: State, tid: Tid)
    requires Good(s) && tid in s.workers && Holds(s.workers[tid])
    ensures s.lock == Worker(tid) && s.exitNum >= 0
  {
  }

  lemma ManagerHasLock(s: State)
    requires Good(s) && ManagerHolds(s.manager)
    ensures s.lock == Manager
  {
  }

  lemma QueueHasTask(s: State, tid: Tid)
    requires Good(s) && tid in s.workers && s.workers[tid].Taking?
    ensures s.queue != []
  {
  }

  lemma ScanGoesOn(s: State, tid: Tid)
    requires Good(s) && tid in s.workers && s.workers[tid].Clearing?
    ensures s.workers[tid].i < |s.ids|
  {
  }
}
