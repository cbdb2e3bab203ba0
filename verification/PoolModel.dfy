/** The thread pool as an interleaved system: any number of workers and one manager, one atomic step at a time. */
module PoolModel {
  import opened Basics
  import opened Options

  /** A thread's identity; 0 marks a free slot. */
  type Tid = nat

  type Job = nat

  const BATCH := 2

  /** Where a worker is. `n` is the number of tasks that had been taken before this one. */
  datatype Pc =
    | AtTop                             // wants the lock, at the head of its endless loop
    | Checking                          // has the lock, looks whether the queue is empty
    | Waiting                           // sleeps on the condition variable, without the lock
    | Woken                             // has the lock again, looks whether it should leave
    | Taking                            // has the lock, is past the wait loop
    | Took(job: Option<Job>, n: nat)    // has the lock, `None` being the empty task
    | Running(job: Option<Job>, n: nat) // without the lock
    | Returned                          // wants the lock, to be counted as idle
    | Settling                          // has the lock
    | Clearing(i: nat)                  // is counted out, looks for its slot from `i` on without the lock

  datatype Snapshot = Snapshot(queued: int, live: int, busy: int)

  datatype ManagerPc =
    | Asleep
    | Counting                                   // has the lock
    | Deciding(snap: Snapshot)
    | GrowWanted(snap: Snapshot)
    | Growing(snap: Snapshot, i: nat, num: nat)  // has the lock
    | Trimming(snap: Snapshot)
    | ShrinkWanted
    | Shrinking                                  // has the lock

  datatype Holder = Nobody | Worker(tid: Tid) | Manager

  /** What an observer writes down: the tasks added and the tasks taken, in order; which of those have finished; how
      many workers were created and left; how often the manager grew and shrank the pool. */
  datatype History = History(added: seq<Job>, started: seq<Job>, finished: set<nat>,
                             created: nat, retired: nat, grows: nat, shrinks: nat)

  datatype State = State(min: nat, max: nat, ids: seq<Tid>, workers: map<Tid, Pc>, lock: Holder, manager: ManagerPc,
                         queue: seq<Job>, alive: int, busy: int, exitNum: int, h: History)

  predicate Holds(pc: Pc) {
    pc.Checking? || pc.Woken? || pc.Taking? || pc.Took? || pc.Settling?
  }

  predicate ManagerHolds(m: ManagerPc) {
    m.Counting? || m.Growing? || m.Shrinking?
  }

  /** Not counted out yet. */
  predicate Alive(pc: Pc) {
    !pc.Clearing?
  }

  predicate Busy(pc: Pc) {
    pc.Running? || pc.Returned? || pc.Settling?
  }

  predicate HasTicket(pc: Pc) {
    pc.Took? || pc.Running?
  }

  function AliveSet(workers: map<Tid, Pc>): set<Tid> {
    set t | t in workers && Alive(workers[t])
  }

  function BusySet(workers: map<Tid, Pc>): set<Tid> {
    set t | t in workers && Busy(workers[t])
  }

  function ClearingSet(workers: map<Tid, Pc>): set<Tid> {
    set t | t in workers && workers[t].Clearing?
  }

  function Occupied(ids: seq<Tid>): set<nat> {
    set i: nat | i < |ids| && ids[i] != 0
  }

  // ---------- the steps ----------

  datatype Event =
    | AddTask(job: Job)
    | Acquire(tid: Tid)          // from the head of the loop, after running, or when woken up, by a signal or not
    | Check(tid: Tid)
    | ExitTest(tid: Tid)
    | Take(tid: Tid)
    | Go(tid: Tid)
    | Return(tid: Tid)
    | Settle(tid: Tid)
    | Clear(tid: Tid)
    | ManagerAcquire
    | ManagerStep(born: Tid)    // `born` is the identity a created thread gets

  predicate Enabled(s: State, e: Event) {
    match e
    case AddTask(_) => true
    case Acquire(tid) =>
      s.lock.Nobody? && tid in s.workers
      && (s.workers[tid].AtTop? || s.workers[tid].Returned? || s.workers[tid].Waiting?)
    case Check(tid) => tid in s.workers && s.workers[tid].Checking?
    case ExitTest(tid) => tid in s.workers && s.workers[tid].Woken?
    case Take(tid) => tid in s.workers && s.workers[tid].Taking?
    case Go(tid) => tid in s.workers && s.workers[tid].Took?
    case Return(tid) => tid in s.workers && s.workers[tid].Running?
    case Settle(tid) => tid in s.workers && s.workers[tid].Settling?
    case Clear(tid) => tid in s.workers && s.workers[tid].Clearing?
    case ManagerAcquire =>
      s.lock.Nobody? && (s.manager.Asleep? || s.manager.GrowWanted? || s.manager.ShrinkWanted?)
    case ManagerStep(born) =>
      && !s.manager.Asleep? && !s.manager.GrowWanted? && !s.manager.ShrinkWanted?
      && born != 0 && born !in s.workers
  }

  function Put(s: State, tid: Tid, pc: Pc): State {
    s.(workers := s.workers[tid := pc])
  }

  /** Taking the first task off the queue; an empty queue gives the empty task. */
  function TakeTask(queue: seq<Job>): (Option<Job>, seq<Job>) {
    if queue == [] then (None, queue) else (Some(queue[0]), queue[1..])
  }

  function Acquires(s: State, tid: Tid): State
    requires Enabled(s, Acquire(tid))
  {
    var pc := match s.workers[tid]
              case AtTop => Checking
              case Returned => Settling
              case _ => Woken;
    Put(s, tid, pc).(lock := Worker(tid))
  }

  function Checks(s: State, tid: Tid): State {
    if s.queue == [] then Put(s, tid, Waiting).(lock := Nobody) else Put(s, tid, Taking)
  }

  /** A woken worker consumes one exit order if there is one, and leaves if the pool is above its minimum. */
  function TestsExit(s: State, tid: Tid): State {
    if s.exitNum > 0 then
      if s.alive > s.min then
        Put(s, tid, Clearing(0)).(exitNum := s.exitNum - 1, alive := s.alive - 1, lock := Nobody,
                                  h := s.h.(retired := s.h.retired + 1))
      else Put(s, tid, Checking).(exitNum := s.exitNum - 1)
    else Put(s, tid, Checking)
  }

  function Takes(s: State, tid: Tid): State {
    var (job, queue) := TakeTask(s.queue);
    var started := if job.Some? then s.h.started + [job.value] else s.h.started;
    Put(s, tid, Took(job, |s.h.started|)).(queue := queue, h := s.h.(started := started))
  }

  function Goes(s: State, tid: Tid): State
    requires Enabled(s, Go(tid))
  {
    Put(s, tid, Running(s.workers[tid].job, s.workers[tid].n)).(busy := s.busy + 1, lock := Nobody)
  }

  function Returns(s: State, tid: Tid): State
    requires Enabled(s, Return(tid))
  {
    Put(s, tid, Returned).(h := s.h.(finished := s.h.finished + {s.workers[tid].n}))
  }

  function Settles(s: State, tid: Tid): State {
    Put(s, tid, AtTop).(busy := s.busy - 1, lock := Nobody)
  }

  /** One turn of the loop that frees the leaving thread's slot; the thread ends with it, or when it runs out. */
  function Clears(s: State, tid: Tid): State
    requires Enabled(s, Clear(tid))
  {
    var i := s.workers[tid].i;
    if i >= |s.ids| then s.(workers := s.workers - {tid})
    else if s.ids[i] == tid then s.(ids := s.ids[i := 0], workers := s.workers - {tid})
    else Put(s, tid, Clearing(i + 1))
  }

  function ManagerAcquires(s: State): State
    requires Enabled(s, ManagerAcquire)
  {
    match s.manager
    case GrowWanted(snap) => s.(lock := Manager, manager := Growing(snap, 0, 0), h := s.h.(grows := s.h.grows + 1))
    case ShrinkWanted => s.(lock := Manager, manager := Shrinking)
    case _ => s.(lock := Manager, manager := Counting)
  }

  predicate ShouldGrow(snap: Snapshot, max: nat) {
    snap.queued > snap.live - snap.busy && snap.live < max
  }

  predicate ShouldShrink(snap: Snapshot, min: nat) {
    snap.busy + 3 < snap.live && snap.live > min
  }

  /** One turn of the growing loop. */
  function Grows(s: State, born: Tid): State
    requires s.manager.Growing?
  {
    var Growing(snap, i, num) := s.manager;
    if i < |s.ids| && num < BATCH && s.alive < s.max then
      if s.ids[i] == 0 then
        Put(s, born, AtTop).(ids := s.ids[i := born], alive := s.alive + 1, manager := Growing(snap, i + 1, num + 1),
                              h := s.h.(created := s.h.created + 1))
      else s.(manager := Growing(snap, i + 1, num))
    else s.(lock := Nobody, manager := Trimming(snap))
  }

  /** The manager counts under the lock, but decides on those counts after giving it up. */
  function ManagerSteps(s: State, born: Tid): State
    requires Enabled(s, ManagerStep(born))
  {
    match s.manager
    case Counting => s.(lock := Nobody, manager := Deciding(Snapshot(|s.queue|, s.alive, s.busy)))
    case Deciding(snap) => s.(manager := if ShouldGrow(snap, s.max) then GrowWanted(snap) else Trimming(snap))
    case Growing(_, _, _) => Grows(s, born)
    case Trimming(snap) => s.(manager := if ShouldShrink(snap, s.min) then ShrinkWanted else Asleep)
    case _ => s.(lock := Nobody, manager := Asleep, exitNum := BATCH, h := s.h.(shrinks := s.h.shrinks + 1))
  }

  function Step(s: State, e: Event): State
    requires Enabled(s, e)
  {
    match e
    case AddTask(job) => s.(queue := s.queue + [job], h := s.h.(added := s.h.added + [job]))
    case Acquire(tid) => Acquires(s, tid)
    case Check(tid) => Checks(s, tid)
    case ExitTest(tid) => TestsExit(s, tid)
    case Take(tid) => Takes(s, tid)
    case Go(tid) => Goes(s, tid)
    case Return(tid) => Returns(s, tid)
    case Settle(tid) => Settles(s, tid)
    case Clear(tid) => Clears(s, tid)
    case ManagerAcquire => ManagerAcquires(s)
    case ManagerStep(born) => ManagerSteps(s, born)
  }

  // ---------- what every reachable state satisfies ----------

  /** Whoever is where the lock is held has it. */
  ghost predicate LockOk(s: State) {
    && (forall t | t in s.workers :: Holds(s.workers[t]) <==> s.lock == Worker(t))
    && (ManagerHolds(s.manager) <==> s.lock == Manager)
    && (s.lock.Worker? ==> s.lock.tid in s.workers)
  }

  function Home(pc: Pc): nat {
    if pc.Clearing? then pc.i else 0
  }

  ghost predicate HasSlot(ids: seq<Tid>, t: Tid, from: nat) {
    exists i :: from <= i < |ids| && ids[i] == t
  }

  /** Every worker owns exactly one slot, a leaving one that it has not looked at yet, and nobody else owns any. */
  ghost predicate SlotsOk(ids: seq<Tid>, workers: map<Tid, Pc>) {
    && 0 !in workers
    && (forall t | t in workers :: HasSlot(ids, t, Home(workers[t])))
    && (forall i | 0 <= i < |ids| :: ids[i] == 0 || ids[i] in workers)
    && (forall i, j | 0 <= i < j < |ids| :: ids[i] == ids[j] ==> ids[i] == 0)
    && |Occupied(ids)| == |workers|
  }

  ghost predicate CountsOk(s: State) {
    && s.alive == |AliveSet(s.workers)| && s.busy == |BusySet(s.workers)|
    && s.min <= s.alive <= s.max == |s.ids|
    && 0 <= s.exitNum <= BATCH
  }

  ghost predicate TurnoverOk(s: State) {
    && s.alive == s.min + s.h.created - s.h.retired
    && s.h.retired + s.exitNum <= BATCH * s.h.shrinks
    && (if s.manager.Growing? then s.manager.num <= BATCH && s.h.grows > 0
                                   && s.h.created <= BATCH * (s.h.grows - 1) + s.manager.num
        else s.h.created <= BATCH * s.h.grows)
  }

  /** The tasks taken and the tasks queued are the tasks added, in order; a worker that took one took the real one. */
  ghost predicate QueueOk(s: State) {
    && s.h.added == s.h.started + s.queue
    && (forall t | t in s.workers && s.workers[t].Taking? :: s.queue != [])
    && (forall t | t in s.workers && HasTicket(s.workers[t]) ::
          s.workers[t].n < |s.h.started| && s.workers[t].job == Some(s.h.started[s.workers[t].n]))
  }

  ghost predicate HeldBySome(workers: map<Tid, Pc>, n: nat) {
    exists t :: t in workers && HasTicket(workers[t]) && workers[t].n == n
  }

  /** Every task taken is finished or in the hands of exactly one worker. */
  ghost predicate TicketsOk(workers: map<Tid, Pc>, started: nat, finished: set<nat>) {
    && (forall t | t in workers && HasTicket(workers[t]) :: workers[t].n < started && workers[t].n !in finished)
    && (forall t, u | t in workers && u in workers && HasTicket(workers[t]) && HasTicket(workers[u]) && t != u ::
          workers[t].n != workers[u].n)
    && (forall n | n in finished :: n < started)
    && (forall n: nat | n < started :: n in finished || HeldBySome(workers, n))
  }

  ghost predicate Good(s: State) {
    && LockOk(s) && SlotsOk(s.ids, s.workers) && CountsOk(s) && TurnoverOk(s) && QueueOk(s)
    && TicketsOk(s.workers, |s.h.started|, s.h.finished)
  }

  // ---------- preservation ----------

  lemma StepKeepsLock(s: State, e: Event)
    requires LockOk(s) && Enabled(s, e)
    ensures LockOk(Step(s, e))
  {
  }

  /** A step that makes, orders out and counts out nobody. */
  lemma TurnoverUntouched(s: State, s': State)
    requires TurnoverOk(s) && s'.alive == s.alive && s'.min == s.min && s'.exitNum == s.exitNum
    requires s'.h.created == s.h.created && s'.h.retired == s.h.retired
    requires s'.h.grows == s.h.grows && s'.h.shrinks == s.h.shrinks && s'.manager == s.manager
    ensures TurnoverOk(s')
  {
  }

  lemma ExitKeepsTurnover(s: State, tid: Tid)
    requires TurnoverOk(s)
    ensures TurnoverOk(TestsExit(s, tid))
  {
  }

  lemma ManagerKeepsTurnover(s: State, e: Event)
    requires TurnoverOk(s) && Enabled(s, e) && (e.ManagerAcquire? || e.ManagerStep?)
    requires 0 <= s.exitNum <= BATCH
    ensures TurnoverOk(Step(s, e))
  {
  }

  lemma StepKeepsTurnover(s: State, e: Event)
    requires TurnoverOk(s) && Enabled(s, e)
    requires 0 <= s.exitNum <= BATCH
    ensures TurnoverOk(Step(s, e))
  {
    hide TurnoverOk;
    match e
    case ExitTest(tid) => ExitKeepsTurnover(s, tid);
    case ManagerAcquire => ManagerKeepsTurnover(s, e);
    case ManagerStep(_) => ManagerKeepsTurnover(s, e);
    case _ => TurnoverUntouched(s, Step(s, e));
  }

  lemma TakeKeepsQueue(s: State, tid: Tid)
    requires QueueOk(s) && LockOk(s) && Enabled(s, Take(tid))
    ensures QueueOk(Step(s, Take(tid)))
  {
  }

  lemma AddKeepsQueue(s: State, job: Job)
    requires QueueOk(s)
    ensures QueueOk(Step(s, AddTask(job)))
  {
  }

  /** A step that leaves the queue alone and moves one worker at most. */
  lemma QueueUntouched(s: State, s': State, t: Tid)
    requires QueueOk(s)
    requires s'.queue == s.queue && s'.h.added == s.h.added && s'.h.started == s.h.started
    requires forall u | u in s'.workers && u != t :: u in s.workers && s'.workers[u] == s.workers[u]
    requires t in s'.workers && s'.workers[t].Taking? ==> s.queue != []
    requires t in s'.workers && HasTicket(s'.workers[t]) ==>
               t in s.workers && HasTicket(s.workers[t])
               && s'.workers[t].n == s.workers[t].n && s'.workers[t].job == s.workers[t].job
    ensures QueueOk(s')
  {
  }

  lemma ManagerKeepsQueue(s: State, e: Event)
    requires QueueOk(s) && Enabled(s, e) && (e.ManagerAcquire? || e.ManagerStep?)
    ensures QueueOk(Step(s, e))
  {
  }

  lemma StepKeepsQueue(s: State, e: Event)
    requires QueueOk(s) && LockOk(s) && Enabled(s, e)
    ensures QueueOk(Step(s, e))
  {
    hide LockOk, QueueOk;
    match e
    case AddTask(job) => AddKeepsQueue(s, job);
    case Take(tid) => TakeKeepsQueue(s, tid);
    case ManagerAcquire => ManagerKeepsQueue(s, e);
    case ManagerStep(_) => ManagerKeepsQueue(s, e);
    case _ => QueueUntouched(s, Step(s, e), e.tid);
  }

  // ----- counters -----

  function One(b: bool): nat {
    if b then 1 else 0
  }

  /** Two sets that agree but for `t`. */
  lemma CardChange(a: set<Tid>, b: set<Tid>, t: Tid)
    requires forall u | u != t :: u in a <==> u in b
    ensures |b| == |a| - One(t in a) + One(t in b)
  {
    assert b - {t} == a - {t};
    assert a == if t in a then (a - {t}) + {t} else a - {t};
    assert b == if t in b then (b - {t}) + {t} else b - {t};
  }

  lemma PutCounts(workers: map<Tid, Pc>, t: Tid, pc: Pc)
    ensures var was, now := workers, workers[t := pc];
            && |AliveSet(now)| == |AliveSet(was)| - One(t in was && Alive(was[t])) + One(Alive(pc))
            && |BusySet(now)| == |BusySet(was)| - One(t in was && Busy(was[t])) + One(Busy(pc))
  {
    var now := workers[t := pc];
    CardChange(AliveSet(workers), AliveSet(now), t);
    CardChange(BusySet(workers), BusySet(now), t);
  }

  lemma EndCounts(workers: map<Tid, Pc>, t: Tid)
    requires t in workers && workers[t].Clearing?
    ensures AliveSet(workers - {t}) == AliveSet(workers) && BusySet(workers - {t}) == BusySet(workers)
  {
  }

  /** A worker's move that adjusts the counters as it should. */
  lemma MoveKeepsCounts(s: State, s': State, tid: Tid)
    requires CountsOk(s) && tid in s.workers && tid in s'.workers && s'.workers == s.workers[tid := s'.workers[tid]]
    requires s'.min == s.min && s'.max == s.max && |s'.ids| == |s.ids|
    requires s'.alive == s.alive - One(Alive(s.workers[tid])) + One(Alive(s'.workers[tid]))
    requires s'.busy == s.busy - One(Busy(s.workers[tid])) + One(Busy(s'.workers[tid]))
    requires s.min <= s'.alive <= s.alive && 0 <= s'.exitNum <= s.exitNum
    ensures CountsOk(s')
  {
    hide AliveSet, BusySet;
    PutCounts(s.workers, tid, s'.workers[tid]);
  }

  lemma CountsBounds(s: State)
    requires CountsOk(s)
    ensures s.min <= s.alive <= s.max && 0 <= s.exitNum <= BATCH
  {
  }

  lemma CountsUntouched(s: State, s': State)
    requires CountsOk(s) && s'.workers == s.workers && s'.alive == s.alive && s'.busy == s.busy
    requires s'.min == s.min && s'.max == s.max && s'.ids == s.ids && s'.exitNum == s.exitNum
    ensures CountsOk(s')
  {
  }

  lemma StepKeepsCounts(s: State, e: Event)
    requires CountsOk(s) && Enabled(s, e)
    ensures CountsOk(Step(s, e))
  {
    CountsBounds(s);
    hide CountsOk;
    match e
    case AddTask(_) => CountsUntouched(s, Step(s, e));
    case ManagerAcquire => CountsUntouched(s, Step(s, e));
    case ManagerStep(born) => ManagerKeepsCounts(s, born);
    case Clear(tid) => ClearKeepsCounts(s, tid);
    case ExitTest(tid) => MoveKeepsCounts(s, TestsExit(s, tid), tid);
    case Go(tid) => MoveKeepsCounts(s, Goes(s, tid), tid);
    case Settle(tid) => MoveKeepsCounts(s, Settles(s, tid), tid);
    case _ => QuietKeepsCounts(s, e);
  }

  lemma QuietKeepsCounts(s: State, e: Event)
    requires CountsOk(s) && Enabled(s, e) && (e.Acquire? || e.Check? || e.Take? || e.Return?)
    ensures CountsOk(Step(s, e))
  {
    CountsBounds(s);
    hide CountsOk;
    MoveKeepsCounts(s, Step(s, e), e.tid);
  }

  lemma ManagerKeepsCounts(s: State, born: Tid)
    requires CountsOk(s) && Enabled(s, ManagerStep(born))
    ensures CountsOk(Step(s, ManagerStep(born)))
  {
    hide AliveSet, BusySet;
    PutCounts(s.workers, born, AtTop);
  }

  lemma ClearKeepsCounts(s: State, tid: Tid)
    requires CountsOk(s) && Enabled(s, Clear(tid))
    ensures CountsOk(Step(s, Clear(tid)))
  {
    hide AliveSet, BusySet;
    EndCounts(s.workers, tid);
    PutCounts(s.workers, tid, Clearing(s.workers[tid].i + 1));
  }

  // ----- slots -----

  lemma PutKeepsSlots(ids: seq<Tid>, workers: map<Tid, Pc>, t: Tid, pc: Pc)
    requires SlotsOk(ids, workers) && t in workers
    requires HasSlot(ids, t, Home(workers[t])) ==> HasSlot(ids, t, Home(pc))
    ensures SlotsOk(ids, workers[t := pc])
  {
  }

  lemma BirthKeepsSlots(ids: seq<Tid>, workers: map<Tid, Pc>, i: nat, born: Tid)
    requires SlotsOk(ids, workers) && i < |ids| && ids[i] == 0 && born != 0 && born !in workers
    ensures SlotsOk(ids[i := born], workers[born := AtTop])
  {
    hide Occupied;
    var ids', workers' := ids[i := born], workers[born := AtTop];
    forall t | t in workers'
      ensures HasSlot(ids', t, Home(workers'[t]))
    {
      if t == born {
        assert ids'[i] == t;
      } else {
        var j :| Home(workers[t]) <= j < |ids| && ids[j] == t;
        assert ids'[j] == t;
      }
    }
    BirthCounts(ids, workers, i, born);
  }

  lemma BirthCounts(ids: seq<Tid>, workers: map<Tid, Pc>, i: nat, born: Tid)
    requires i < |ids| && ids[i] == 0 && born != 0 && born !in workers
    ensures |Occupied(ids[i := born])| == |Occupied(ids)| + 1
    ensures |workers[born := AtTop]| == |workers| + 1
  {
    assert Occupied(ids[i := born]) == Occupied(ids) + {i};
    assert workers[born := AtTop].Keys == workers.Keys + {born};
    assert |workers[born := AtTop]| == |workers[born := AtTop].Keys| && |workers| == |workers.Keys|;
  }

  lemma EndKeepsSlots(ids: seq<Tid>, workers: map<Tid, Pc>, i: nat, t: Tid)
    requires SlotsOk(ids, workers) && t in workers && i < |ids| && ids[i] == t
    ensures SlotsOk(ids[i := 0], workers - {t})
  {
    hide Occupied;
    var ids', workers' := ids[i := 0], workers - {t};
    forall u | u in workers'
      ensures HasSlot(ids', u, Home(workers'[u]))
    {
      var j :| Home(workers[u]) <= j < |ids| && ids[j] == u;
      assert ids'[j] == u;
    }
    EndSlotCounts(ids, workers, i, t);
  }

  lemma EndSlotCounts(ids: seq<Tid>, workers: map<Tid, Pc>, i: nat, t: Tid)
    requires t in workers && t != 0 && i < |ids| && ids[i] == t
    ensures |Occupied(ids[i := 0])| == |Occupied(ids)| - 1
    ensures |workers - {t}| == |workers| - 1
  {
    assert Occupied(ids[i := 0]) == Occupied(ids) - {i};
    assert (workers - {t}).Keys == workers.Keys - {t};
    assert |workers - {t}| == |(workers - {t}).Keys| && |workers| == |workers.Keys|;
  }

  lemma StepKeepsSlots(s: State, e: Event)
    requires SlotsOk(s.ids, s.workers) && Enabled(s, e)
    ensures SlotsOk(Step(s, e).ids, Step(s, e).workers)
  {
    hide SlotsOk;
    match e
    case AddTask(_) =>
    case ManagerAcquire =>
    case ManagerStep(born) =>
      if s.manager.Growing? && s.manager.i < |s.ids| && s.ids[s.manager.i] == 0 {
        BirthKeepsSlots(s.ids, s.workers, s.manager.i, born);
      }
    case Clear(tid) =>
      var i := s.workers[tid].i;
      SlotAhead(s.ids, s.workers, tid);
      if s.ids[i] == tid {
        EndKeepsSlots(s.ids, s.workers, i, tid);
      } else {
        PutKeepsSlots(s.ids, s.workers, tid, Clearing(i + 1));
      }
    case _ =>
      PutKeepsSlots(s.ids, s.workers, e.tid, Step(s, e).workers[e.tid]);
  }

  /** A leaving thread finds its slot: the scan never runs out. */
  lemma SlotAhead(ids: seq<Tid>, workers: map<Tid, Pc>, t: Tid)
    requires SlotsOk(ids, workers) && t in workers && workers[t].Clearing?
    ensures workers[t].i < |ids|
    ensures ids[workers[t].i] != t ==> HasSlot(ids, t, workers[t].i + 1)
  {
  }

  // ----- tickets -----

  lemma PutKeepsTickets(workers: map<Tid, Pc>, started: nat, finished: set<nat>, t: Tid, pc: Pc)
    requires TicketsOk(workers, started, finished)
    requires t in workers && HasTicket(workers[t]) <==> HasTicket(pc)
    requires HasTicket(pc) ==> pc.n == workers[t].n
    ensures TicketsOk(workers[t := pc], started, finished)
  {
    forall n: nat | n < started && n !in finished
      ensures HeldBySome(workers[t := pc], n)
    {
      var u :| u in workers && HasTicket(workers[u]) && workers[u].n == n;
      assert u in workers[t := pc] && HasTicket(workers[t := pc][u]) && workers[t := pc][u].n == n;
    }
  }

  lemma EndKeepsTickets(workers: map<Tid, Pc>, started: nat, finished: set<nat>, t: Tid)
    requires TicketsOk(workers, started, finished) && t in workers && !HasTicket(workers[t])
    ensures TicketsOk(workers - {t}, started, finished)
  {
    forall n: nat | n < started && n !in finished
      ensures HeldBySome(workers - {t}, n)
    {
      var u :| u in workers && HasTicket(workers[u]) && workers[u].n == n;
      assert u in workers - {t} && (workers - {t})[u] == workers[u];
    }
  }

  lemma TakeKeepsTickets(workers: map<Tid, Pc>, started: nat, finished: set<nat>, t: Tid, job: Option<Job>)
    requires TicketsOk(workers, started, finished) && t in workers && !HasTicket(workers[t])
    ensures TicketsOk(workers[t := Took(job, started)], started + 1, finished)
  {
    var workers' := workers[t := Took(job, started)];
    forall n: nat | n < started + 1 && n !in finished
      ensures HeldBySome(workers', n)
    {
      if n == started {
        assert t in workers' && HasTicket(workers'[t]) && workers'[t].n == n;
      } else {
        var u :| u in workers && HasTicket(workers[u]) && workers[u].n == n;
        assert u in workers' && HasTicket(workers'[u]) && workers'[u].n == n;
      }
    }
  }

  lemma ReturnKeepsTickets(workers: map<Tid, Pc>, started: nat, finished: set<nat>, t: Tid)
    requires TicketsOk(workers, started, finished) && t in workers && HasTicket(workers[t])
    ensures TicketsOk(workers[t := Returned], started, finished + {workers[t].n})
  {
    var workers' := workers[t := Returned];
    forall n: nat | n < started && n !in finished + {workers[t].n}
      ensures HeldBySome(workers', n)
    {
      var u :| u in workers && HasTicket(workers[u]) && workers[u].n == n;
      assert u in workers' && HasTicket(workers'[u]) && workers'[u].n == n;
    }
  }

  lemma StepKeepsTickets(s: State, e: Event)
    requires TicketsOk(s.workers, |s.h.started|, s.h.finished) && QueueOk(s) && Enabled(s, e)
    ensures var s' := Step(s, e); TicketsOk(s'.workers, |s'.h.started|, s'.h.finished)
  {
    hide TicketsOk;
    match e
    case AddTask(_) =>
    case ManagerAcquire =>
    case ManagerStep(born) => PutKeepsTickets(s.workers, |s.h.started|, s.h.finished, born, AtTop);
    case Take(tid) => TakeKeepsTickets(s.workers, |s.h.started|, s.h.finished, tid, TakeTask(s.queue).0);
    case Return(tid) => ReturnKeepsTickets(s.workers, |s.h.started|, s.h.finished, tid);
    case Clear(tid) =>
      EndKeepsTickets(s.workers, |s.h.started|, s.h.finished, tid);
      PutKeepsTickets(s.workers, |s.h.started|, s.h.finished, tid, Clearing(s.workers[tid].i + 1));
    case _ =>
      PutKeepsTickets(s.workers, |s.h.started|, s.h.finished, e.tid, Step(s, e).workers[e.tid]);
  }

  // ---------- runs ----------

  lemma StepKeeps(s: State, e: Event)
    requires Good(s) && Enabled(s, e)
    ensures Good(Step(s, e))
  {
    hide LockOk, SlotsOk, CountsOk, TurnoverOk, QueueOk, TicketsOk, Step, Enabled;
    assert 0 <= s.exitNum <= BATCH by { ExitNumFits(s); }
    StepKeepsLock(s, e);
    StepKeepsSlots(s, e);
    StepKeepsCounts(s, e);
    StepKeepsTurnover(s, e);
    StepKeepsQueue(s, e);
    StepKeepsTickets(s, e);
  }

  lemma ExitNumFits(s: State)
    requires CountsOk(s)
    ensures 0 <= s.exitNum <= BATCH
  {
  }

  ghost predicate Distinct(ids: seq<Tid>) {
    0 !in ids && forall i, j | 0 <= i < j < |ids| :: ids[i] != ids[j]
  }

  function Slots(ids: seq<Tid>, max: nat): seq<Tid>
    requires |ids| <= max
  {
    ids + seq(max - |ids|, _ => 0)
  }

  function Fresh(ids: seq<Tid>): map<Tid, Pc> {
    map t | t in ids :: AtTop
  }

  /** The pool as its constructor leaves it: `ids` are the threads it created, at the head of their loops. */
  function Start(min: nat, max: nat, ids: seq<Tid>): State
    requires |ids| == min <= max
  {
    State(min, max, Slots(ids, max), Fresh(ids), Nobody, Asleep, [], min, 0, 0, History([], [], {}, 0, 0, 0, 0))
  }

  lemma {:induction false} StartSlots(ids: seq<Tid>, max: nat)
    requires |ids| <= max && Distinct(ids)
    ensures SlotsOk(Slots(ids, max), Fresh(ids)) && |Fresh(ids)| == |ids|
    decreases |ids|
  {
    if ids == [] {
      assert Occupied(Slots(ids, max)) == {};
      assert Fresh(ids) == map[];
    } else {
      var k := |ids| - 1;
      var rest := ids[..k];
      assert ids == rest + [ids[k]];
      assert 0 !in rest;
      StartSlots(rest, max);
      assert Slots(ids, max) == Slots(rest, max)[k := ids[k]];
      assert Fresh(ids) == Fresh(rest)[ids[k] := AtTop];
      BirthKeepsSlots(Slots(rest, max), Fresh(rest), k, ids[k]);
      BirthCounts(Slots(rest, max), Fresh(rest), k, ids[k]);
    }
  }

  lemma StartIsGood(min: nat, max: nat, ids: seq<Tid>)
    requires |ids| == min <= max && Distinct(ids)
    ensures Good(Start(min, max, ids))
  {
    hide SlotsOk;
    StartSlots(ids, max);
    var s := Start(min, max, ids);
    assert AliveSet(s.workers) == s.workers.Keys && |s.workers| == |s.workers.Keys|;
    assert BusySet(s.workers) == {};
  }

  ghost predicate LegalRun(s: State, es: seq<Event>)
    decreases |es|
  {
    es == [] || (Enabled(s, es[0]) && LegalRun(Step(s, es[0]), es[1..]))
  }

  ghost function Run(s: State, es: seq<Event>): State
    requires LegalRun(s, es)
    decreases |es|
  {
    if es == [] then s else Run(Step(s, es[0]), es[1..])
  }

  lemma {:induction false} RunIsGood(s: State, es: seq<Event>)
    requires Good(s) && LegalRun(s, es)
    ensures Good(Run(s, es))
    decreases |es|
  {
    hide Good, Step, Enabled;
    if es == [] {
    } else {
      StepKeeps(s, es[0]);
      RunIsGood(Step(s, es[0]), es[1..]);
    }
  }

  /** What the pool reaches from its constructor by any interleaving. */
  ghost predicate Reached(s: State, min: nat, max: nat) {
    exists ids: seq<Tid>, es: seq<Event> ::
      && |ids| == min <= max && Distinct(ids)
      && LegalRun(Start(min, max, ids), es) && s == Run(Start(min, max, ids), es)
  }

  lemma ReachedIsGood(s: State, min: nat, max: nat)
    requires Reached(s, min, max)
    ensures Good(s) && s.min == min && s.max == max
  {
    hide Good;
    var ids: seq<Tid>, es: seq<Event> :|
      && |ids| == min <= max && Distinct(ids)
      && LegalRun(Start(min, max, ids), es) && s == Run(Start(min, max, ids), es);
    StartIsGood(min, max, ids);
    RunIsGood(Start(min, max, ids), es);
    BoundsStay(Start(min, max, ids), es);
  }

  lemma {:induction false} BoundsStay(s: State, es: seq<Event>)
    requires LegalRun(s, es)
    ensures Run(s, es).min == s.min && Run(s, es).max == s.max
    decreases |es|
  {
    if es == [] {
    } else {
      BoundsStay(Step(s, es[0]), es[1..]);
    }
  }

  /** The counters mean what they say in every reachable state, although the manager decides on stale counts. */
  lemma CountersHold(s: State, min: nat, max: nat)
    requires Reached(s, min, max)
    ensures min <= s.alive <= max && 0 <= s.busy <= s.alive && 0 <= s.exitNum <= BATCH
    ensures s.alive == |AliveSet(s.workers)| && s.busy == |BusySet(s.workers)|
    ensures |Occupied(s.ids)| == s.alive + |ClearingSet(s.workers)|
  {
    ReachedIsGood(s, min, max);
    SubsetSize(BusySet(s.workers), AliveSet(s.workers));
    assert s.workers.Keys == AliveSet(s.workers) + ClearingSet(s.workers);
    assert |s.workers| == |s.workers.Keys|;
  }

  /** Slots and threads correspond one to one, and a leaving thread's scan ends at its own slot. */
  lemma SlotsHold(s: State, min: nat, max: nat)
    requires Reached(s, min, max)
    ensures forall t | t in s.workers :: t != 0 && exists i :: 0 <= i < |s.ids| && s.ids[i] == t
    ensures forall i | 0 <= i < |s.ids| && s.ids[i] != 0 :: s.ids[i] in s.workers
    ensures forall i, j | 0 <= i < j < |s.ids| && s.ids[i] != 0 :: s.ids[i] != s.ids[j]
    ensures forall t | t in s.workers && s.workers[t].Clearing? ::
              s.workers[t].i < |s.ids| && exists i :: s.workers[t].i <= i < |s.ids| && s.ids[i] == t
  {
    ReachedIsGood(s, min, max);
    forall t | t in s.workers
      ensures exists i :: 0 <= i < |s.ids| && s.ids[i] == t
    {
      assert HasSlot(s.ids, t, Home(s.workers[t]));
    }
    forall t | t in s.workers && s.workers[t].Clearing?
      ensures exists i :: s.workers[t].i <= i < |s.ids| && s.ids[i] == t
    {
      assert HasSlot(s.ids, t, s.workers[t].i);
    }
  }

  /** The lock is held by one party at most, the one that is inside. */
  lemma OneInside(s: State, min: nat, max: nat, t: Tid, u: Tid)
    requires Reached(s, min, max) && t in s.workers && u in s.workers
    requires Holds(s.workers[t])
    ensures Holds(s.workers[u]) ==> t == u
    ensures !ManagerHolds(s.manager) && s.lock == Worker(t)
  {
    ReachedIsGood(s, min, max);
  }

  /** No task is lost, invented, reordered or taken twice: the tasks added are those taken, in order, and then those
      queued; each task taken is either finished or in the hands of exactly one worker; and a worker past the wait loop
      never finds the queue empty, so it always runs a real task. */
  lemma TasksConserved(s: State, min: nat, max: nat)
    requires Reached(s, min, max)
    ensures s.h.added == s.h.started + s.queue
    ensures forall n: nat | n < |s.h.started| :: n in s.h.finished <==> !HeldBySome(s.workers, n)
    ensures forall n | n in s.h.finished :: n < |s.h.started|
    ensures forall t, u | t in s.workers && u in s.workers && HasTicket(s.workers[t]) && HasTicket(s.workers[u]) ::
              s.workers[t].n == s.workers[u].n ==> t == u
    ensures forall t | t in s.workers && s.workers[t].Taking? :: s.queue != []
    ensures forall t | t in s.workers && HasTicket(s.workers[t]) ::
              s.workers[t].n < |s.h.started| && s.workers[t].job == Some(s.h.started[s.workers[t].n])
  {
    ReachedIsGood(s, min, max);
  }

  /** Every worker gone was ordered out, two at a time, and every worker made was made two at a time. */
  lemma TurnoverHolds(s: State, min: nat, max: nat)
    requires Reached(s, min, max)
    ensures s.alive == min + s.h.created - s.h.retired
    ensures s.h.retired + s.exitNum <= BATCH * s.h.shrinks && s.h.created <= BATCH * s.h.grows
  {
    ReachedIsGood(s, min, max);
  }
}
