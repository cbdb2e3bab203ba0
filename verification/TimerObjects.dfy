/** Whole runs on the timer objects: what is proved of every run of the model holds of them. */
module TimerObjects {
  import opened TimerSet
  import opened TimerModel
  import opened TimerRuns
  import opened Timers

  lemma HandleOf(m: TimerManager, id: Id)
    requires m.Valid() && id in m.View().ts
    ensures id in m.issued && m.Issued(m.issued[id]) && m.issued[id].addr == id && m.issued[id].manager == m
  {
  }

  lemma NotIssued(m: TimerManager, id: Id)
    requires m.Valid() && id !in m.View().ts
    ensures id !in m.issued
  {
  }

  /** One critical section on the objects. `timers0` are the timers handed out so far; `w` is what an observer knows. */
  method Perform(m: TimerManager, timers0: map<Id, Timer>, clock0: nat, e: Event, ghost w: World)
    returns (timers: map<Id, Timer>, clock: nat, firings: seq<Firing>)
    requires m.Valid() && m.issued == timers0 && m.View() == w.s && w.clock == clock0 && Good(w) && Legal(w, e)
    modifies m, m.issued.Values
    ensures m.Valid() && m.issued == timers && m.View() == Step(w, e).s
    ensures clock == Step(w, e).clock && Step(w, e).log == w.log + firings
    ensures forall id | id in timers :: (id in timers0 && timers[id] == timers0[id]) || fresh(timers[id])
  {
    hide TimerManager.Valid, TimerManager.View, Inv;
    timers, clock, firings := timers0, clock0, [];
    match e
    case Tick(to) =>
      clock := to;
    case NewTimer(id, ms, cb, recurring, sampled) =>
      NotIssued(m, id);
      var t, _ := m.AddTimer(id, ms, cb, recurring, sampled);
      timers := timers[id := t];
    case CancelTimer(id) =>
      HandleOf(m, id);
      var _ := timers[id].Cancel();
    case RefreshTimer(id) =>
      HandleOf(m, id);
      var _ := timers[id].Refresh(clock);
    case ResetTimer(id, ms, fromNow) =>
      HandleOf(m, id);
      var _, _ := timers[id].Reset(ms, fromNow, clock);
    case NextTimer =>
      var _ := m.GetNextTimer(clock);
    case ExpireTimers(sampled, probe) =>
      var fired := m.ListExpired(sampled, probe);
      firings := Stamp(fired, sampled);
  }

  /** A manager made and run: its objects go where the model goes, and hand out what the model hands out. */
  method MakeAndRun(clock0: nat, prev: nat, es: seq<Event>) returns (m: TimerManager, log: seq<Firing>)
    requires LegalRun(Start(clock0, prev), es)
    ensures fresh(m) && m.Valid()
    ensures m.View() == Run(Start(clock0, prev), es).s && log == Run(Start(clock0, prev), es).log
  {
    hide TimerManager.Owns, TimerManager.View, Inv, Safe, Timely, Step, Legal;
    m := new TimerManager(prev);
    var timers: map<Id, Timer>, clock := map[], clock0;
    log := [];
    ghost var w := Start(clock0, prev);
    ghost var goal := Run(w, es);
    assert es[0..] == es;
    for k := 0 to |es|
      invariant fresh(m) && m.Valid() && m.issued == timers && forall id | id in timers :: fresh(timers[id])
      invariant Good(w) && m.View() == w.s && w.clock == clock && w.log == log
      invariant LegalRun(w, es[k..]) && Run(w, es[k..]) == goal
    {
      assert es[k..][0] == es[k] && es[k..][1..] == es[k + 1..];
      StepKeeps(w, es[k]);
      var firings;
      timers, clock, firings := Perform(m, timers, clock, es[k], w);
      log := log + firings;
      w := Step(w, es[k]);
    }
    assert es[|es|..] == [];
  }
}
