/** Whole runs of the timer manager: any interleaving of its critical sections under a clock that never goes back. */
module TimerRuns {
  import opened Options
  import opened TimerSet
  import opened TimerModel
  import opened Words

  /** The manager's state with what an observer remembers: the clock, the earliest deadline the sleeper last saw
      (`None` if the set was empty), the notifications since then, every firing with its sampled time, when each timer was
      made, the timers that were reset, how many firings had happened when a timer was cancelled, and whether a rollover was ever detected. */
  datatype World = World(s: State, clock: nat, seen: Option<nat>, notified: nat, log: seq<Firing>,
                         made: map<Id, nat>, wasReset: set<Id>, cancelledAt: map<Id, nat>, rolled: bool)

  datatype Firing = Firing(id: Id, now: nat)

  /** `sampled` times are read before the lock is taken, so they may lag behind the clock; the other operations read
      the clock while they hold the lock. */
  datatype Event =
    | Tick(to: nat)
    | NewTimer(id: Id, ms: nat, cb: Option<Callback>, recurring: bool, sampled: nat)
    | CancelTimer(id: Id)
    | RefreshTimer(id: Id)
    | ResetTimer(id: Id, ms: nat, fromNow: bool)
    | NextTimer
    | ExpireTimers(sampled: nat, probe: Id)

  predicate Legal(w: World, e: Event) {
    match e
    case Tick(to) => w.clock <= to
    case NewTimer(id, _, _, _, sampled) => id !in w.s.ts && sampled <= w.clock
    case CancelTimer(id) => id in w.s.ts
    case RefreshTimer(id) => id in w.s.ts
    case ResetTimer(id, _, _) => id in w.s.ts
    case NextTimer => true
    case ExpireTimers(sampled, _) => sampled <= w.clock
  }

  function Count(b: bool): nat {
    if b then 1 else 0
  }

  function Stamp(fired: seq<Fired>, now: nat): (r: seq<Firing>)
    ensures |r| == |fired| && forall i | 0 <= i < |r| :: r[i] == Firing(fired[i].id, now)
  {
    if fired == [] then [] else [Firing(fired[0].id, now)] + Stamp(fired[1..], now)
  }

  function Step(w: World, e: Event): World
    requires Inv(w.s) && Legal(w, e)
  {
    match e
    case Tick(to) => w.(clock := to)
    case NewTimer(id, ms, cb, recurring, sampled) =>
      var (s, told) := Add(w.s, id, ms, cb, recurring, sampled);
      w.(s := s, notified := w.notified + Count(told), made := w.made[id := sampled])
    case CancelTimer(id) =>
      var (s, done) := Cancel(w.s, id);
      if done then w.(s := s, cancelledAt := w.cancelledAt[id := |w.log|]) else w.(s := s)
    case RefreshTimer(id) => w.(s := Refresh(w.s, id, w.clock).0)
    case ResetTimer(id, ms, fromNow) =>
      var (s, _, told) := Reset(w.s, id, ms, fromNow, w.clock);
      w.(s := s, notified := w.notified + Count(told), wasReset := w.wasReset + {id})
    case NextTimer =>
      w.(s := GetNext(w.s, w.clock).0, notified := 0,
         seen := if w.s.q == [] then None else Some(w.s.ts[w.s.q[0]].next))
    case ExpireTimers(sampled, probe) =>
      var (s, fired) := Expire(w.s, sampled, probe);
      w.(s := s, log := w.log + Stamp(fired, sampled),
         rolled := w.rolled || (w.s.q != [] && Rollover(w.s.prev, sampled)))
  }

  // ---------- what every reachable state satisfies ----------

  /** No deadline lies further ahead than a full period from the clock. */
  ghost predicate NotAhead(w: World) {
    forall id | id in w.s.ts :: w.s.ts[id].next <= w.clock + w.s.ts[id].ms
  }

  /** Either the sleeper has been told, or nothing pending is due before what it last saw. */
  ghost predicate NoneMissed(w: World) {
    w.s.tickled || forall id | id in w.s.q :: id in w.s.ts && w.seen.Some? && w.seen.value <= w.s.ts[id].next
  }

  /** One notification at most since the sleeper last looked, and the flag says whether there was one. */
  ghost predicate ToldOnce(w: World) {
    w.notified == Count(w.s.tickled)
  }

  ghost predicate LogKnown(w: World) {
    w.made.Keys == w.s.ts.Keys && forall i | 0 <= i < |w.log| :: w.log[i].id in w.s.ts && w.log[i].now <= w.clock
  }

  ghost predicate HasFired(w: World, id: Id) {
    exists i :: 0 <= i < |w.log| && w.log[i].id == id
  }

  /** A timer made without a callback cannot be cancelled: it is stored until it fires, and for ever if it recurs. */
  ghost predicate EmptiesStay(w: World) {
    forall id | id in w.s.ts && !w.s.ts[id].callable :: id in w.s.q <==> w.s.ts[id].recurring || !HasFired(w, id)
  }

  /** A one-shot timer fires once; having fired it has left the set and lost its callback. */
  ghost predicate OneShotsOnce(w: World)
    requires LogKnown(w)
  {
    && (forall i, j | 0 <= i < j < |w.log| && w.log[i].id == w.log[j].id :: w.s.ts[w.log[i].id].recurring)
    && forall i | 0 <= i < |w.log| && !w.s.ts[w.log[i].id].recurring ::
         w.log[i].id !in w.s.q && w.s.ts[w.log[i].id].cb.None?
  }

  /** A cancelled timer stays out of the set and is never handed out again. */
  ghost predicate CancelsHold(w: World) {
    forall id | id in w.cancelledAt ::
      && id in w.s.ts && id !in w.s.q && w.s.ts[id].cb.None?
      && forall i | w.cancelledAt[id] <= i < |w.log| :: w.log[i].id != id
  }

  /** A recurring timer that was never reset fires at least a period after each earlier firing. */
  ghost predicate WellSpaced(w: World)
    requires LogKnown(w)
  {
    && (forall i, j | 0 <= i < j < |w.log| && w.log[i].id == w.log[j].id && w.log[i].id !in w.wasReset ::
          w.log[i].now + w.s.ts[w.log[i].id].ms <= w.log[j].now)
    && forall i | 0 <= i < |w.log| && w.log[i].id in w.s.q && w.log[i].id !in w.wasReset ::
         w.log[i].now + w.s.ts[w.log[i].id].ms <= w.s.ts[w.log[i].id].next
  }

  /** A timer that was never reset is not due, and has not fired, before a period is over since it was made. */
  ghost predicate NotEarly(w: World)
    requires LogKnown(w)
  {
    && (forall id | id in w.s.ts && id !in w.wasReset :: w.made[id] + w.s.ts[id].ms <= w.s.ts[id].next)
    && forall i | 0 <= i < |w.log| && w.log[i].id !in w.wasReset ::
         w.made[w.log[i].id] + w.s.ts[w.log[i].id].ms <= w.log[i].now
  }

  /** What holds whatever the clock does. */
  ghost predicate Safe(w: World) {
    Inv(w.s) && ToldOnce(w) && LogKnown(w) && OneShotsOnce(w) && CancelsHold(w) && EmptiesStay(w)
  }

  /** What holds because the clock never goes back. */
  ghost predicate Timely(w: World)
    requires LogKnown(w)
  {
    NotAhead(w) && (!w.rolled ==> NoneMissed(w) && WellSpaced(w) && NotEarly(w))
  }

  ghost predicate Good(w: World) {
    Safe(w) && Timely(w)
  }

  /** An empty manager; `prev` is the time its constructor read. */
  function Start(clock: nat, prev: nat): (w: World)
    ensures Good(w)
  {
    World(State(map[], [], false, prev), clock, None, 0, [], map[], {}, map[], false)
  }

  lemma TickKeeps(w: World, to: nat)
    requires Good(w) && w.clock <= to
    ensures Good(Step(w, Tick(to)))
  {
  }

  // ---------- steps on one timer ----------

  /** A new timer: stored, not overdue, and the sleeper knows something due no later, unless told. */
  ghost predicate Appears(w: World, w': World, id: Id)
    requires id in w'.s.ts && id in w'.made && Known(w.s.ts, w.s.q)
  {
    var r := w'.s.ts[id];
    && id in w'.s.q && w'.cancelledAt == w.cancelledAt
    && w'.made[id] + r.ms <= r.next <= w'.clock + r.ms
    && (w'.s.tickled || exists x :: x in w.s.q && x in w.s.ts && w.s.ts[x].next <= r.next)
  }

  /** An old timer: its deadline is not put off beyond a period from now, nor moved earlier but by a reset, and then the
      sleeper knows something due no later, unless told. Without a callback it stays as it is. */
  ghost predicate Changes(w: World, w': World, id: Id)
    requires id in w.s.ts && id in w'.s.ts && id in w.made && id in w'.made
  {
    var a, b := w.s.ts[id], w'.s.ts[id];
    && w'.made[id] == w.made[id] && b.recurring == a.recurring && b.callable == a.callable
    && (a.cb.None? ==> b.cb.None? && (id in w.s.q ==> id in w'.s.q))
    && (id in w'.s.q ==> id in w.s.q)
    && (w'.cancelledAt == w.cancelledAt
        || (w'.cancelledAt == w.cancelledAt[id := |w.log|] && id !in w'.s.q && b.cb.None?))
    && b.next <= w'.clock + b.ms
    && (id in w'.wasReset || (b.ms == a.ms && a.next <= b.next))
    && (w'.s.tickled || a.next <= b.next || exists x :: x in w.s.q && x != id && x in w.s.ts && w.s.ts[x].next <= b.next)
  }

  /** What a step on timer `id` leaves of everything else. */
  ghost predicate Touches(w: World, w': World, id: Id) {
    && Known(w.s.ts, w.s.q) && Inv(w'.s) && ToldOnce(w')
    && w'.log == w.log && w'.clock == w.clock && w'.seen == w.seen && w'.rolled == w.rolled
    && (w.s.tickled ==> w'.s.tickled) && w.wasReset <= w'.wasReset
    && w'.s.ts.Keys == w.s.ts.Keys + {id} && w'.made.Keys == w.made.Keys + {id} && w.made.Keys == w.s.ts.Keys
    && (forall x | x in w.s.ts && x != id ::
          w'.s.ts[x] == w.s.ts[x] && w'.made[x] == w.made[x] && (x in w'.s.q <==> x in w.s.q))
    && (if id in w.s.ts then Changes(w, w', id) else Appears(w, w', id))
  }

  lemma TouchedIsSafe(w: World, w': World, id: Id)
    requires Safe(w) && Touches(w, w', id)
    ensures Safe(w')
  {
    InvKnown(w.s);
    InvKnown(w'.s);
    hide Inv, Touches, OneShotsOnce, CancelsHold, EmptiesStay;
    TouchedIsKnown(w, w', id);
    TouchedShotsOnce(w, w', id);
    TouchedHolds(w, w', id);
    TouchedStays(w, w', id);
  }

  lemma TouchedIsKnown(w: World, w': World, id: Id)
    requires LogKnown(w) && Touches(w, w', id)
    ensures LogKnown(w') && Inv(w'.s) && ToldOnce(w')
  {
    hide Inv;
  }

  lemma TouchedShotsOnce(w: World, w': World, id: Id)
    requires LogKnown(w) && LogKnown(w') && Touches(w, w', id) && OneShotsOnce(w)
    ensures OneShotsOnce(w')
  {
    hide Inv, Known;
  }

  lemma TouchedHolds(w: World, w': World, id: Id)
    requires LogKnown(w) && Touches(w, w', id) && CancelsHold(w)
    ensures CancelsHold(w')
  {
    hide Inv, Known;
  }

  lemma TouchedStays(w: World, w': World, id: Id)
    requires LogKnown(w) && Touches(w, w', id) && EmptiesStay(w)
    requires forall x | x in w.s.ts && !w.s.ts[x].callable :: w.s.ts[x].cb.None?
    ensures EmptiesStay(w')
  {
    hide Inv, Known;
    forall x | x in w'.s.ts && !w'.s.ts[x].callable
      ensures x in w'.s.q <==> w'.s.ts[x].recurring || !HasFired(w', x)
    {
      assert HasFired(w', x) == HasFired(w, x);
      assert x !in w.s.ts ==> !HasFired(w, x);
    }
  }

  lemma InvKnown(s: State)
    requires Inv(s)
    ensures Known(s.ts, s.q)
    ensures forall id | id in s.q :: id in s.ts
    ensures forall id | id in s.ts && !s.ts[id].callable :: s.ts[id].cb.None?
  {
  }

  lemma TouchedIsTimely(w: World, w': World, id: Id)
    requires Good(w) && LogKnown(w') && Touches(w, w', id)
    ensures Timely(w')
  {
    InvKnown(w.s);
    InvKnown(w'.s);
    hide Inv, Touches, NotAhead, NoneMissed, WellSpaced, NotEarly;
    TouchedNotAhead(w, w', id);
    if !w.rolled {
      TouchedMissesNone(w, w', id);
      TouchedIsSpaced(w, w', id);
    }
    TouchedRolls(w, w', id);
  }

  lemma TouchedRolls(w: World, w': World, id: Id)
    requires Touches(w, w', id)
    ensures w'.rolled == w.rolled
  {
    hide Inv, Known;
  }

  lemma TouchedNotAhead(w: World, w': World, id: Id)
    requires Touches(w, w', id) && NotAhead(w)
    ensures NotAhead(w')
  {
    hide Inv, Known;
  }

  lemma TouchedMissesNone(w: World, w': World, id: Id)
    requires LogKnown(w) && Touches(w, w', id) && NoneMissed(w)
    requires forall x | x in w'.s.q :: x in w'.s.ts
    ensures NoneMissed(w')
  {
    hide Inv;
  }

  lemma TouchedIsSpaced(w: World, w': World, id: Id)
    requires LogKnown(w) && LogKnown(w') && Touches(w, w', id)
    requires forall x | x in w'.s.q :: x in w'.s.ts
    ensures WellSpaced(w) ==> WellSpaced(w')
    ensures NotEarly(w) ==> NotEarly(w')
  {
    hide Inv;
  }

  lemma TouchedKeeps(w: World, w': World, id: Id)
    requires Good(w) && Touches(w, w', id)
    ensures Good(w')
  {
    hide Touches, Timely;
    TouchedIsSafe(w, w', id);
    TouchedIsTimely(w, w', id);
  }

  lemma NewKeeps(w: World, id: Id, ms: nat, cb: Option<Callback>, recurring: bool, sampled: nat)
    requires Good(w) && id !in w.s.ts && sampled <= w.clock
    ensures Good(Step(w, NewTimer(id, ms, cb, recurring, sampled)))
  {
    NewTouches(w, id, ms, cb, recurring, sampled);
    hide Touches, Safe, Timely, Step;
    TouchedKeeps(w, Step(w, NewTimer(id, ms, cb, recurring, sampled)), id);
  }

  lemma NewTouches(w: World, id: Id, ms: nat, cb: Option<Callback>, recurring: bool, sampled: nat)
    requires Inv(w.s) && NotAhead(w) && ToldOnce(w) && LogKnown(w) && id !in w.s.ts && sampled <= w.clock
    ensures Touches(w, Step(w, NewTimer(id, ms, cb, recurring, sampled)), id)
  {
    hide Add, Sorted;
    AddSpec(w.s, id, ms, cb, recurring, sampled);
    AddKeeps(w.s, id, ms, cb, recurring, sampled);
  }

  lemma CancelStepKeeps(w: World, id: Id)
    requires Good(w) && id in w.s.ts
    ensures Good(Step(w, CancelTimer(id)))
  {
    CancelTouches(w, id);
    hide Touches, Safe, Timely, Step;
    TouchedKeeps(w, Step(w, CancelTimer(id)), id);
  }

  lemma CancelTouches(w: World, id: Id)
    requires Inv(w.s) && NotAhead(w) && ToldOnce(w) && LogKnown(w) && id in w.s.ts
    ensures Touches(w, Step(w, CancelTimer(id)), id)
  {
    hide Cancel, Sorted;
    CancelSpec(w.s, id);
    CancelKeeps(w.s, id);
  }

  /** The step that never notifies: it cannot move a deadline forward in time past the clock's reading, and so cannot
      put a timer before what the sleeper saw. */
  lemma RefreshStepKeeps(w: World, id: Id)
    requires Good(w) && id in w.s.ts
    ensures Good(Step(w, RefreshTimer(id)))
    ensures id in Step(w, RefreshTimer(id)).s.ts && Step(w, RefreshTimer(id)).s.ts[id].next >= w.s.ts[id].next
  {
    RefreshTouches(w, id);
    hide Touches, Safe, Timely, Step;
    TouchedKeeps(w, Step(w, RefreshTimer(id)), id);
  }

  lemma RefreshTouches(w: World, id: Id)
    requires Inv(w.s) && NotAhead(w) && ToldOnce(w) && LogKnown(w) && id in w.s.ts
    ensures Touches(w, Step(w, RefreshTimer(id)), id)
    ensures id in Step(w, RefreshTimer(id)).s.ts && Step(w, RefreshTimer(id)).s.ts[id].next >= w.s.ts[id].next
  {
    hide Refresh, Sorted;
    RefreshKeeps(w.s, id, w.clock);
  }

  lemma ResetStepKeeps(w: World, id: Id, ms: nat, fromNow: bool)
    requires Good(w) && id in w.s.ts
    ensures Good(Step(w, ResetTimer(id, ms, fromNow)))
  {
    ResetTouches(w, id, ms, fromNow);
    hide Touches, Safe, Timely, Step;
    TouchedKeeps(w, Step(w, ResetTimer(id, ms, fromNow)), id);
  }

  lemma ResetTouches(w: World, id: Id, ms: nat, fromNow: bool)
    requires Inv(w.s) && NotAhead(w) && ToldOnce(w) && LogKnown(w) && id in w.s.ts
    ensures Touches(w, Step(w, ResetTimer(id, ms, fromNow)), id)
  {
    hide Reset, Sorted;
    ResetKeeps(w.s, id, ms, fromNow, w.clock);
  }

  // ---------- the other steps ----------

  lemma NextKeeps(w: World)
    requires Good(w)
    ensures Good(Step(w, NextTimer))
  {
    var w' := Step(w, NextTimer);
    forall id | id in w'.s.q
      ensures w'.seen.Some? && w'.seen.value <= w'.s.ts[id].next
    {
      var i :| 0 <= i < |w.s.q| && w.s.q[i] == id;
      InOrder(w.s.ts, w.s.q, 0, i);
    }
  }

  lemma ExpireStepKeeps(w: World, sampled: nat, probe: Id)
    requires Good(w) && sampled <= w.clock
    ensures Good(Step(w, ExpireTimers(sampled, probe)))
  {
    hide Expire, Sorted, Rollover, Stamp, NoneMissed, WellSpaced, NotEarly, OneShotsOnce, CancelsHold, EmptiesStay, AfterFire;
    ExpireEffect(w.s, sampled, probe);
    var w' := Step(w, ExpireTimers(sampled, probe));
    var fired := Expire(w.s, sampled, probe).1;
    var all := w.s.q != [] && Rollover(w.s.prev, sampled);
    assert Expires(w, w', fired, sampled, all);
    ExpireKeepsBasics(w, w', fired, sampled, all);
    ExpireKeepsOneShots(w, w', fired, sampled, all);
    ExpireKeepsCancels(w, w', fired, sampled, all);
    ExpireKeepsEmpties(w, w', fired, sampled, all);
    if !w'.rolled {
      ExpireKeepsSpacing(w, w', fired, sampled);
      ExpireMissesNone(w, w', fired, sampled);
      ExpireNotEarly(w, w', fired, sampled);
    }
  }

  /** One expiry as the observer sees it, `all` being a rollover. */
  ghost predicate Expires(w: World, w': World, fired: seq<Fired>, now: nat, all: bool) {
    && Inv(w.s) && Inv(w'.s) && now <= w.clock
    && w' == w.(s := w'.s, log := w.log + Stamp(fired, now), rolled := w'.rolled)
    && w'.s.tickled == w.s.tickled && w'.s.ts.Keys == w.s.ts.Keys
    && (forall id | id in w.s.ts ::
          var due := id in w.s.q && (all || w.s.ts[id].next <= now);
          && w'.s.ts[id] == (if due then AfterFire(w.s.ts[id], now) else w.s.ts[id])
          && (id in w'.s.q <==> id in w.s.q && (due ==> w.s.ts[id].recurring))
          && (due <==> exists i :: 0 <= i < |fired| && fired[i].id == id))
    && (forall i | 0 <= i < |fired| :: fired[i].id in w.s.ts)
    && (forall i, j | 0 <= i < j < |fired| :: fired[i].id != fired[j].id)
  }

  /** The log after an expiry: what was there, then one entry for each timer handed out. */
  lemma LogAfter(w: World, w': World, fired: seq<Fired>, now: nat, all: bool)
    requires Expires(w, w', fired, now, all)
    ensures |w'.log| == |w.log| + |fired|
    ensures forall i | 0 <= i < |w.log| :: w'.log[i] == w.log[i]
    ensures forall i | |w.log| <= i < |w'.log| ::
              && w'.log[i] == Firing(fired[i - |w.log|].id, now)
              && w'.log[i].id in w.s.ts && w'.log[i].id in w.s.q && (all || w.s.ts[w'.log[i].id].next <= now)
    ensures forall i, j | |w.log| <= i < j < |w'.log| :: w'.log[i].id != w'.log[j].id
  {
    hide Inv;
    forall i | |w.log| <= i < |w'.log|
      ensures w'.log[i] == Firing(fired[i - |w.log|].id, now) && w'.log[i].id in w.s.q
      ensures w'.log[i].id in w.s.ts && (all || w.s.ts[w'.log[i].id].next <= now)
    {
      assert fired[i - |w.log|].id == w'.log[i].id;
    }
  }

  lemma ExpireKeepsBasics(w: World, w': World, fired: seq<Fired>, now: nat, all: bool)
    requires Expires(w, w', fired, now, all) && NotAhead(w) && ToldOnce(w) && LogKnown(w)
    ensures NotAhead(w') && ToldOnce(w') && LogKnown(w')
  {
  }

  lemma ExpireKeepsOneShots(w: World, w': World, fired: seq<Fired>, now: nat, all: bool)
    requires Expires(w, w', fired, now, all) && LogKnown(w) && LogKnown(w') && OneShotsOnce(w)
    ensures OneShotsOnce(w')
  {
    hide Inv;
    LogAfter(w, w', fired, now, all);
  }

  lemma ExpireKeepsCancels(w: World, w': World, fired: seq<Fired>, now: nat, all: bool)
    requires Expires(w, w', fired, now, all) && CancelsHold(w)
    ensures CancelsHold(w')
  {
  }

  lemma ExpireKeepsEmpties(w: World, w': World, fired: seq<Fired>, now: nat, all: bool)
    requires Expires(w, w', fired, now, all) && EmptiesStay(w)
    ensures EmptiesStay(w')
  {
    hide Inv;
    LogAfter(w, w', fired, now, all);
    forall id | id in w'.s.ts && !w'.s.ts[id].callable
      ensures id in w'.s.q <==> w'.s.ts[id].recurring || !HasFired(w', id)
    {
      FiredAfter(w, w', fired, now, all, id);
    }
  }

  lemma FiredAfter(w: World, w': World, fired: seq<Fired>, now: nat, all: bool, id: Id)
    requires Expires(w, w', fired, now, all) && id in w.s.ts
    ensures HasFired(w', id) <==> HasFired(w, id) || (id in w.s.q && (all || w.s.ts[id].next <= now))
  {
    hide Inv;
    LogAfter(w, w', fired, now, all);
    if HasFired(w, id) {
      var i :| 0 <= i < |w.log| && w.log[i].id == id;
      assert w'.log[i].id == id;
    }
    if id in w.s.q && (all || w.s.ts[id].next <= now) {
      var i :| 0 <= i < |fired| && fired[i].id == id;
      assert w'.log[|w.log| + i].id == id;
    }
  }

  lemma ExpireKeepsSpacing(w: World, w': World, fired: seq<Fired>, now: nat)
    requires Expires(w, w', fired, now, false) && LogKnown(w) && LogKnown(w') && WellSpaced(w)
    ensures WellSpaced(w')
  {
    hide Inv;
    LogAfter(w, w', fired, now, false);
    forall i | 0 <= i < |w'.log| && w'.log[i].id in w'.s.q && w'.log[i].id !in w'.wasReset
      ensures w'.log[i].now + w'.s.ts[w'.log[i].id].ms <= w'.s.ts[w'.log[i].id].next
    {
      var id := w'.log[i].id;
      assert id in w.s.ts && id in w.s.q;
    }
  }

  lemma ExpireMissesNone(w: World, w': World, fired: seq<Fired>, now: nat)
    requires Expires(w, w', fired, now, false) && NoneMissed(w)
    ensures NoneMissed(w')
  {
  }

  lemma ExpireNotEarly(w: World, w': World, fired: seq<Fired>, now: nat)
    requires Expires(w, w', fired, now, false) && LogKnown(w) && LogKnown(w') && NotEarly(w)
    ensures NotEarly(w')
  {
    hide Inv;
    LogAfter(w, w', fired, now, false);
  }

  // ---------- runs ----------

  ghost predicate LegalRun(w: World, es: seq<Event>)
    requires Good(w)
    decreases |es|
  {
    es == [] || (Legal(w, es[0]) && (StepKeeps(w, es[0]); LegalRun(Step(w, es[0]), es[1..])))
  }

  ghost function Run(w: World, es: seq<Event>): World
    requires Good(w) && LegalRun(w, es)
    decreases |es|
  {
    if es == [] then w else (StepKeeps(w, es[0]); Run(Step(w, es[0]), es[1..]))
  }

  lemma StepKeeps(w: World, e: Event)
    requires Good(w) && Legal(w, e)
    ensures Good(Step(w, e))
  {
    hide Good, Step;
    match e
    case Tick(to) => TickKeeps(w, to);
    case NewTimer(id, ms, cb, recurring, sampled) => NewKeeps(w, id, ms, cb, recurring, sampled);
    case CancelTimer(id) => CancelStepKeeps(w, id);
    case RefreshTimer(id) => RefreshStepKeeps(w, id);
    case ResetTimer(id, ms, fromNow) => ResetStepKeeps(w, id, ms, fromNow);
    case NextTimer => NextKeeps(w);
    case ExpireTimers(sampled, probe) => ExpireStepKeeps(w, sampled, probe);
  }

  /** Every run from an empty manager stays good. */
  lemma {:induction false} RunIsGood(w: World, es: seq<Event>)
    requires Good(w) && LegalRun(w, es)
    ensures Good(Run(w, es))
    decreases |es|
  {
    hide NotAhead, NoneMissed, ToldOnce, LogKnown, OneShotsOnce, CancelsHold, EmptiesStay, WellSpaced, NotEarly, Inv, Step;
    if es == [] {
    } else {
      StepKeeps(w, es[0]);
      RunIsGood(Step(w, es[0]), es[1..]);
    }
  }

  lemma ReachedIsGood(clock: nat, prev: nat, es: seq<Event>) returns (w: World)
    requires LegalRun(Start(clock, prev), es)
    ensures w == Run(Start(clock, prev), es) && Good(w)
  {
    hide Good;
    w := Run(Start(clock, prev), es);
    RunIsGood(Start(clock, prev), es);
  }

  /** No wake-up is missed: as long as no rollover was detected, whenever the sleeper has not been told to look again,
      no pending timer is due before the earliest deadline it last saw, and it is told at most once per look. */
  lemma NoMissedWakeup(clock: nat, prev: nat, es: seq<Event>)
    requires LegalRun(Start(clock, prev), es)
    ensures var w := Run(Start(clock, prev), es);
            && w.notified <= 1 && (w.notified == 1 <==> w.s.tickled)
            && (!w.rolled && !w.s.tickled ==>
                  forall id | id in w.s.q :: id in w.s.ts && w.seen.Some? && w.seen.value <= w.s.ts[id].next)
  {
    var w := ReachedIsGood(clock, prev, es);
  }

  /** A one-shot timer is handed out at most once, and no timer is handed out after its cancellation succeeded. */
  lemma FiringIsSafe(clock: nat, prev: nat, es: seq<Event>)
    requires LegalRun(Start(clock, prev), es)
    ensures var w := Run(Start(clock, prev), es);
            && (forall i | 0 <= i < |w.log| :: w.log[i].id in w.s.ts)
            && (forall i, j | 0 <= i < j < |w.log| && w.log[i].id == w.log[j].id :: w.s.ts[w.log[i].id].recurring)
            && (forall id, i | id in w.cancelledAt && w.cancelledAt[id] <= i < |w.log| :: w.log[i].id != id)
  {
    var w := ReachedIsGood(clock, prev, es);
  }

  /** Without rollover, firings of a recurring timer that was never reset are at least its period apart. */
  lemma FiringsAreSpaced(clock: nat, prev: nat, es: seq<Event>)
    requires LegalRun(Start(clock, prev), es)
    ensures var w := Run(Start(clock, prev), es);
            !w.rolled ==>
              forall i, j | 0 <= i < j < |w.log| && w.log[i].id == w.log[j].id && w.log[i].id !in w.wasReset ::
                w.log[i].id in w.s.ts && w.log[i].now + w.s.ts[w.log[i].id].ms <= w.log[j].now
  {
    var w := ReachedIsGood(clock, prev, es);
  }

  /** Over every run a timer made without a callback is stored until it fires, and for ever if it recurs; no call can take
      it out before. */
  lemma EmptyTimersStay(clock: nat, prev: nat, es: seq<Event>)
    requires LegalRun(Start(clock, prev), es)
    ensures var w := Run(Start(clock, prev), es);
            Inv(w.s) && forall id | id in w.s.ts && !w.s.ts[id].callable ::
              && (id in w.s.q <==> w.s.ts[id].recurring || !HasFired(w, id))
              && Cancel(w.s, id) == (w.s, false) && Refresh(w.s, id, w.clock) == (w.s, false)
  {
    var w := ReachedIsGood(clock, prev, es);
    hide LegalRun, Run;
  }

  /** Without rollover no timer that was never reset fires before its period is over since it was made. */
  lemma FirstFiringIsNotEarly(clock: nat, prev: nat, es: seq<Event>)
    requires LegalRun(Start(clock, prev), es)
    ensures var w := Run(Start(clock, prev), es);
            !w.rolled ==>
              forall i | 0 <= i < |w.log| && w.log[i].id !in w.wasReset ::
                w.log[i].id in w.s.ts && w.log[i].id in w.made
                && w.made[w.log[i].id] + w.s.ts[w.log[i].id].ms <= w.log[i].now
  {
    var w := ReachedIsGood(clock, prev, es);
  }

  /** A timer made with a callback is stored exactly while it holds it, the stored keys are strictly ordered although
      deadlines are changed in place, and no deadline is less than its period. */
  lemma MembershipHolds(clock: nat, prev: nat, es: seq<Event>)
    requires LegalRun(Start(clock, prev), es)
    ensures var s := Run(Start(clock, prev), es).s;
            && Known(s.ts, s.q) && Sorted(s.ts, s.q)
            && (forall id | id in s.ts && s.ts[id].callable :: id in s.q <==> s.ts[id].cb.Some?)
            && (forall id | id in s.ts :: s.ts[id].ms <= s.ts[id].next)
            && (forall id | id in s.ts && s.ts[id].cb.Some? ::
                  Find(s.ts, s.q, id) < |s.q| && s.q[Find(s.ts, s.q, id)] == id)
  {
    var w := ReachedIsGood(clock, prev, es);
    forall id | id in w.s.ts && w.s.ts[id].cb.Some?
      ensures Find(w.s.ts, w.s.q, id) < |w.s.q| && w.s.q[Find(w.s.ts, w.s.q, id)] == id
    {
      InvFinds(w.s, id);
    }
  }

  // ---------- when rollovers are detected ----------

  /** Every expiry samples the clock at most an hour before it gets the lock. */
  ghost predicate Prompt(w: World, es: seq<Event>)
    requires Good(w) && LegalRun(w, es)
    decreases |es|
  {
    es == [] || (
      && (es[0].ExpireTimers? ==> ONE_HOUR <= es[0].sampled < Pow2(64) && w.clock <= es[0].sampled + ONE_HOUR)
      && (StepKeeps(w, es[0]); Prompt(Step(w, es[0]), es[1..])))
  }

  ghost predicate PrevFits(w: World) {
    ONE_HOUR <= w.s.prev <= w.clock && w.s.prev < Pow2(64)
  }

  lemma StepDetectsNone(w: World, e: Event)
    requires Good(w) && Legal(w, e) && PrevFits(w)
    requires e.ExpireTimers? ==> ONE_HOUR <= e.sampled < Pow2(64) && w.clock <= e.sampled + ONE_HOUR
    ensures PrevFits(Step(w, e)) && Step(w, e).rolled == w.rolled
  {
    hide Pow2, Sorted, Find, Insert, Erase, FireAll, ExpiredCount, Stamp, Rollover;
    if e.ExpireTimers? {
      RolloverMeaning(w.s.prev, e.sampled);
    }
  }

  /** With a clock that never goes back and prompt sampling no rollover is ever detected, so what holds without one
      holds throughout. */
  lemma {:induction false} NoFalseRollover(w: World, es: seq<Event>)
    requires Good(w) && LegalRun(w, es) && Prompt(w, es) && PrevFits(w)
    ensures Run(w, es).rolled == w.rolled
    decreases |es|
  {
    hide NotAhead, NoneMissed, ToldOnce, LogKnown, OneShotsOnce, CancelsHold, EmptiesStay, WellSpaced, NotEarly, Inv, Step, PrevFits;
    if es == [] {
    } else {
      StepKeeps(w, es[0]);
      StepDetectsNone(w, es[0]);
      NoFalseRollover(Step(w, es[0]), es[1..]);
    }
  }
}
