/** The timer manager's critical sections as functions of its state, and what they keep. */
module TimerModel {
  import opened Options
  import opened TimerSet
  import opened Words

  datatype State = State(ts: Table, q: seq<Id>, tickled: bool, prev: nat)

  const ONE_HOUR: nat := 60 * 60 * 1000

  /** Between critical sections: the stored keys are in order; a timer made with a callback is stored exactly while it
      still holds it; and no deadline is less than its period, so a reset can subtract. */
  ghost predicate Inv(s: State) {
    && Known(s.ts, s.q) && Sorted(s.ts, s.q)
    && forall id | id in s.ts ::
         && (s.ts[id].callable ==> (id in s.q <==> s.ts[id].cb.Some?))
         && (!s.ts[id].callable ==> s.ts[id].cb.None?)
         && s.ts[id].ms <= s.ts[id].next
  }

  /** Puts a timer in the set and says whether the sleeper must be told: it came out first and nobody was told yet. */
  function Enqueue(s: State, id: Id): (State, bool)
    requires Known(s.ts, s.q) && id in s.ts
  {
    var q := Insert(s.ts, s.q, id);
    var atFront := q[0] == id && !s.tickled;
    (s.(q := q, tickled := s.tickled || atFront), atFront)
  }

  function Add(s: State, id: Id, ms: nat, cb: Option<Callback>, recurring: bool, now: nat): (State, bool)
    requires Known(s.ts, s.q) && id !in s.ts
  {
    Enqueue(s.(ts := s.ts[id := Rec(recurring, cb.Some?, ms, now + ms, cb)]), id)
  }

  /** Erases whatever the search finds; the source does not look whether it found anything. */
  function Cancel(s: State, id: Id): (State, bool)
    requires Inv(s) && id in s.ts
  {
    if s.ts[id].cb.Some? then
      InvFinds(s, id);
      (s.(ts := s.ts[id := s.ts[id].(cb := None)], q := Erase(s.q, Find(s.ts, s.q, id))), true)
    else (s, false)
  }

  function Refresh(s: State, id: Id, now: nat): (State, bool)
    requires Inv(s) && id in s.ts
  {
    if s.ts[id].cb.None? then (s, false)
    else
      var k := Find(s.ts, s.q, id);
      if k == |s.q| then (s, false)
      else
        var ts := s.ts[id := s.ts[id].(next := now + s.ts[id].ms)];
        InvFinds(s, id);
        EraseKeeps(s.ts, s.q, k);
        (s.(ts := ts, q := Insert(ts, Erase(s.q, k), id)), true)
  }

  function Reset(s: State, id: Id, ms: nat, fromNow: bool, now: nat): (State, bool, bool)
    requires Inv(s) && id in s.ts
  {
    if ms == s.ts[id].ms && !fromNow then (s, true, false)
    else if s.ts[id].cb.None? then (s, false, false)
    else
      var k := Find(s.ts, s.q, id);
      if k == |s.q| then (s, false, false)
      else
        var start := if fromNow then now else s.ts[id].next - s.ts[id].ms;
        InvFinds(s, id);
        EraseKeeps(s.ts, s.q, k);
        var r := Enqueue(s.(ts := s.ts[id := s.ts[id].(ms := ms, next := start + ms)], q := Erase(s.q, k)), id);
        (r.0, true, r.1)
  }

  /** How long the sleeper may sleep; `None` is for ever. */
  function GetNext(s: State, now: nat): (State, Option<nat>)
    requires Known(s.ts, s.q)
  {
    var wait := if s.q == [] then None
                else if now >= s.ts[s.q[0]].next then Some(0)
                else Some(s.ts[s.q[0]].next - now);
    (s.(tickled := false), wait)
  }

  /** The clock is taken to have been set back when it reads more than an hour before the last time; the subtraction
      is on 64-bit words. */
  function Rollover(prev: nat, now: nat): bool {
    now < prev && now < Wrap(prev - ONE_HOUR, 64)
  }

  function Expire(s: State, now: nat, probe: Id): (State, seq<Fired>)
    requires Known(s.ts, s.q)
  {
    if s.q == [] then (s, [])
    else
      var rollover := Rollover(s.prev, now);
      if !rollover && s.ts[s.q[0]].next > now then (s.(prev := now), [])
      else
        var e := if rollover then |s.q| else ExpiredCount(s.ts, s.q, now, probe);
        var r := FireAll(s.ts, s.q[e..], s.q[..e], now);
        (State(r.ts, r.q, s.tickled, now), r.fired)
  }

  /** The search in `cancel`, `refresh` and `reset` never misses a timer that still holds its callback. */
  lemma InvFinds(s: State, id: Id)
    requires Inv(s) && id in s.ts && s.ts[id].cb.Some?
    ensures Find(s.ts, s.q, id) < |s.q| && s.q[Find(s.ts, s.q, id)] == id
  {
  }

  /** An hour is 3600000 milliseconds. */
  lemma RolloverMeaning(prev: nat, now: nat)
    requires prev < Pow2(64)
    ensures Rollover(prev, now) <==> if prev >= 3600000 then now + 3600000 < prev else now < prev
  {
    assert Pow2(64) > 2 * ONE_HOUR by { Pow2Mono(32, 64); assert Pow2(32) == 0x1_0000_0000 by { Pow32(); } }
    if prev >= ONE_HOUR {
      WrapSmall(prev - ONE_HOUR, 64);
    } else {
      ModNegative(prev - ONE_HOUR, Pow2(64));
    }
  }

  // ---------- every critical section keeps the invariant ----------

  lemma EnqueueKeeps(s: State, id: Id)
    requires Known(s.ts, s.q) && Sorted(s.ts, s.q) && id in s.ts && id !in s.q
    ensures var t := Enqueue(s, id).0;
            && t.ts == s.ts && t.prev == s.prev && Known(t.ts, t.q) && Sorted(t.ts, t.q)
            && (forall x :: x in t.q <==> x in s.q || x == id)
    ensures var (t, told) := Enqueue(s, id);
            && t.tickled == (s.tickled || told) && (told ==> !s.tickled)
            && (!t.tickled ==> s.q != [] && s.ts[s.q[0]].next <= s.ts[id].next)
  {
  }

  /** An earlier deadline than every stored timer's, or the same one and a lower address. */
  ghost predicate ComesFirst(ts: Table, q: seq<Id>, id: Id)
    requires Known(ts, q) && id in ts
  {
    forall x | x in q && x != id :: ts[id].next < ts[x].next || (ts[id].next == ts[x].next && id < x)
  }

  /** The sleeper is told exactly when the timer comes before every other and nobody was told yet. */
  lemma ToldIffFirst(s: State, id: Id)
    requires Known(s.ts, s.q) && Sorted(s.ts, s.q) && id in s.ts && id !in s.q
    ensures Enqueue(s, id).1 <==> !s.tickled && ComesFirst(s.ts, s.q, id)
  {
    InsertKeeps(s.ts, s.q, id);
    forall x | x in s.q && Less(s.ts[id].next, id, s.ts[s.q[0]].next, s.q[0])
      ensures Less(s.ts[id].next, id, s.ts[x].next, x)
    {
      var i :| 0 <= i < |s.q| && s.q[i] == x;
      InOrder(s.ts, s.q, 0, i);
    }
    assert s.q != [] ==> s.q[0] in s.q;
  }

  /** The wait handed to the sleeper is for ever exactly when nothing is pending, zero exactly when something is due,
      and otherwise ends at the earliest deadline. */
  lemma WaitEndsAtEarliest(s: State, now: nat)
    requires Inv(s)
    ensures GetNext(s, now).0 == s.(tickled := false)
    ensures var wait := GetNext(s, now).1;
            && (wait == None <==> s.q == [])
            && (wait == Some(0) <==> exists id :: id in s.q && s.ts[id].next <= now)
            && (wait.Some? && wait.value > 0 ==>
                  && (forall id | id in s.q :: now + wait.value <= s.ts[id].next)
                  && exists id :: id in s.q && now + wait.value == s.ts[id].next)
  {
    forall id | id in s.q
      ensures s.ts[s.q[0]].next <= s.ts[id].next
    {
      var i :| 0 <= i < |s.q| && s.q[i] == id;
      InOrder(s.ts, s.q, 0, i);
    }
    assert s.q != [] ==> s.q[0] in s.q;
  }

  lemma AddSpec(s: State, id: Id, ms: nat, cb: Option<Callback>, recurring: bool, now: nat)
    requires Inv(s) && id !in s.ts
    ensures var (t, told) := Add(s, id, ms, cb, recurring, now);
            && t.ts == s.ts[id := Rec(recurring, cb.Some?, ms, now + ms, cb)]
            && (forall x :: x in t.q <==> x in s.q || x == id)
            && t.tickled == (s.tickled || told) && (told ==> !s.tickled) && t.prev == s.prev
            && (!t.tickled ==> exists x :: x in s.q && s.ts[x].next <= now + ms)
  {
  }

  /** Adding tells the sleeper exactly when the new timer comes first and nobody was told yet. */
  lemma AddTellsIffFirst(s: State, id: Id, ms: nat, cb: Option<Callback>, recurring: bool, now: nat)
    requires Inv(s) && id !in s.ts
    ensures var (t, told) := Add(s, id, ms, cb, recurring, now);
            id in t.ts && Known(t.ts, s.q) && (told <==> !s.tickled && ComesFirst(t.ts, s.q, id))
  {
    hide Enqueue;
    var r := Rec(recurring, cb.Some?, ms, now + ms, cb);
    UpdateKeeps(s.ts, s.q, id, r);
    EnqueueKeeps(s.(ts := s.ts[id := r]), id);
    ToldIffFirst(s.(ts := s.ts[id := r]), id);
  }

  lemma AddKeeps(s: State, id: Id, ms: nat, cb: Option<Callback>, recurring: bool, now: nat)
    requires Inv(s) && id !in s.ts
    ensures Inv(Add(s, id, ms, cb, recurring, now).0)
  {
  }

  lemma CancelKeeps(s: State, id: Id)
    requires Inv(s) && id in s.ts
    ensures Inv(Cancel(s, id).0)
    ensures var (t, done) := Cancel(s, id);
            && (done <==> s.ts[id].cb.Some?)
            && (done ==> (forall x :: x in t.q <==> x in s.q && x != id) && t.ts[id].cb.None?)
  {
    if s.ts[id].cb.Some? {
      InvFinds(s, id);
      EraseKeeps(s.ts, s.q, Find(s.ts, s.q, id));
      UpdateKeeps(s.ts, Erase(s.q, Find(s.ts, s.q, id)), id, s.ts[id].(cb := None));
    }
  }

  lemma CancelSpec(s: State, id: Id)
    requires Inv(s) && id in s.ts
    ensures var (t, done) := Cancel(s, id);
            && t.tickled == s.tickled && t.prev == s.prev
            && t.ts == (if done then s.ts[id := s.ts[id].(cb := None)] else s.ts)
            && (!done ==> t.q == s.q)
  {
  }

  /** A timer added without a callback is stored all the same, and neither `cancel` nor `refresh` does anything to it. */
  lemma EmptyCallbackStays(s: State, id: Id, ms: nat, recurring: bool, now: nat, later: nat)
    requires Inv(s) && id !in s.ts
    ensures var t := Add(s, id, ms, None, recurring, now).0;
            Inv(t) && id in t.q && id in t.ts && Cancel(t, id) == (t, false) && Refresh(t, id, later) == (t, false)
  {
    hide Add, Sorted;
    AddSpec(s, id, ms, None, recurring, now);
    AddKeeps(s, id, ms, None, recurring, now);
  }

  /** `refresh` changes the timer's deadline and nothing else; the set holds the same timers. */
  lemma RefreshKeeps(s: State, id: Id, now: nat)
    requires Inv(s) && id in s.ts
    ensures Inv(Refresh(s, id, now).0)
    ensures var (t, done) := Refresh(s, id, now);
            && (done <==> s.ts[id].cb.Some?)
            && (if done then t.ts == s.ts[id := s.ts[id].(next := now + s.ts[id].ms)] else t == s)
            && (forall x :: x in t.q <==> x in s.q) && t.tickled == s.tickled && t.prev == s.prev
  {
    hide Find, Erase, Insert, Sorted;
    if s.ts[id].cb.Some? {
      var k := Find(s.ts, s.q, id);
      var r := s.ts[id].(next := now + s.ts[id].ms);
      InvStored(s, id);
      TakeOut(s.ts, s.q, id, r);
      InsertKeeps(s.ts[id := r], Erase(s.q, k), id);
    }
  }

  lemma InvStored(s: State, id: Id)
    requires Inv(s) && id in s.ts && s.ts[id].cb.Some?
    ensures id in s.q
  {
  }

  /** `reset` likewise, with the new period counted from now or from where the old one began. */
  lemma ResetKeeps(s: State, id: Id, ms: nat, fromNow: bool, now: nat)
    requires Inv(s) && id in s.ts
    ensures Inv(Reset(s, id, ms, fromNow, now).0)
    ensures var (t, done, told) := Reset(s, id, ms, fromNow, now);
            var same := ms == s.ts[id].ms && !fromNow;
            var acts := !same && s.ts[id].cb.Some?;
            var start := if fromNow then now else s.ts[id].next - s.ts[id].ms;
            && (done <==> same || acts)
            && (!acts ==> t == s && !told)
            && (acts ==> t.ts == s.ts[id := s.ts[id].(ms := ms, next := start + ms)])
            && (forall x :: x in t.q <==> x in s.q)
            && t.tickled == (s.tickled || told) && (told ==> !s.tickled) && t.prev == s.prev
            && (acts && !t.tickled ==> exists x :: x in s.q && x != id && s.ts[x].next <= t.ts[id].next)
  {
    hide Find, Erase, Insert, Sorted, Enqueue;
    if !(ms == s.ts[id].ms && !fromNow) && s.ts[id].cb.Some? {
      var k := Find(s.ts, s.q, id);
      var start := if fromNow then now else s.ts[id].next - s.ts[id].ms;
      var r := s.ts[id].(ms := ms, next := start + ms);
      InvStored(s, id);
      TakeOut(s.ts, s.q, id, r);
      EnqueueKeeps(s.(ts := s.ts[id := r], q := Erase(s.q, k)), id);
      var e := Erase(s.q, k);
      assert e != [] ==> e[0] in e;
    }
  }

  /** Resetting tells the sleeper exactly when it acts, the timer then comes first and nobody was told yet. */
  lemma ResetTellsIffFirst(s: State, id: Id, ms: nat, fromNow: bool, now: nat)
    requires Inv(s) && id in s.ts
    ensures var (t, done, told) := Reset(s, id, ms, fromNow, now);
            && id in t.ts && Known(t.ts, s.q)
            && (told <==> (ms != s.ts[id].ms || fromNow) && s.ts[id].cb.Some? && !s.tickled && ComesFirst(t.ts, s.q, id))
  {
    hide Find, Erase, Insert, Sorted, Enqueue, ComesFirst;
    if !(ms == s.ts[id].ms && !fromNow) && s.ts[id].cb.Some? {
      var k := Find(s.ts, s.q, id);
      var start := if fromNow then now else s.ts[id].next - s.ts[id].ms;
      var r := s.ts[id].(ms := ms, next := start + ms);
      InvStored(s, id);
      TakeOut(s.ts, s.q, id, r);
      EnqueueKeeps(s.(ts := s.ts[id := r], q := Erase(s.q, k)), id);
      ToldIffFirst(s.(ts := s.ts[id := r], q := Erase(s.q, k)), id);
      FirstAmongOthers(s.ts[id := r], s.q, Erase(s.q, k), id);
    }
  }

  lemma FirstAmongOthers(ts: Table, q: seq<Id>, rest: seq<Id>, id: Id)
    requires Known(ts, q) && Known(ts, rest) && id in ts && forall x :: x in rest <==> x in q && x != id
    ensures ComesFirst(ts, rest, id) <==> ComesFirst(ts, q, id)
  {
  }

  /** Expiry takes out exactly the timers due by `now`, or all of them on a rollover, hands their callbacks out in
      deadline order, and leaves the others and the recurring ones among the fired, these at now plus their period.
      Where the probe timer is allocated makes no difference. */
  lemma ExpireSpec(s: State, now: nat, probe: Id)
    requires Inv(s)
    ensures var (t, fired) := Expire(s, now, probe);
            var all := Rollover(s.prev, now);
            && Inv(t) && t.tickled == s.tickled && t.ts.Keys == s.ts.Keys
            && (forall id | id in s.ts ::
                  var due := id in s.q && (all || s.ts[id].next <= now);
                  && t.ts[id] == (if !due then s.ts[id]
                                  else if s.ts[id].recurring then s.ts[id].(next := now + s.ts[id].ms)
                                  else s.ts[id].(cb := None))
                  && (id in t.q <==> id in s.q && (due ==> s.ts[id].recurring))
                  && (due <==> exists i :: 0 <= i < |fired| && fired[i].id == id))
            && (forall i | 0 <= i < |fired| :: fired[i].id in s.ts && fired[i].cb == s.ts[fired[i].id].cb)
            && (forall i, j | 0 <= i < j < |fired| ::
                  fired[i].id != fired[j].id && s.ts[fired[i].id].next <= s.ts[fired[j].id].next)
            && (if s.q == [] then t == s else t.prev == now)
  {
    hide Expire, Inv, Rollover;
    ExpireEffect(s, now, probe);
  }

  /** The same, by what firing makes of a timer. */
  lemma ExpireEffect(s: State, now: nat, probe: Id)
    requires Inv(s)
    ensures var (t, fired) := Expire(s, now, probe);
            var all := Rollover(s.prev, now);
            && Inv(t) && t.tickled == s.tickled && t.ts.Keys == s.ts.Keys
            && (forall id | id in s.ts ::
                  var due := id in s.q && (all || s.ts[id].next <= now);
                  && t.ts[id] == (if due then AfterFire(s.ts[id], now) else s.ts[id])
                  && (id in t.q <==> id in s.q && (due ==> s.ts[id].recurring))
                  && (due <==> exists i :: 0 <= i < |fired| && fired[i].id == id))
            && (forall i | 0 <= i < |fired| :: fired[i].id in s.ts && fired[i].cb == s.ts[fired[i].id].cb)
            && (forall i, j | 0 <= i < j < |fired| ::
                  fired[i].id != fired[j].id && s.ts[fired[i].id].next <= s.ts[fired[j].id].next)
            && (if s.q == [] then t == s else t.prev == now)
  {
    hide FireAll, ExpiredCount, Sorted, Rollover;
    if s.q == [] {
    } else if !Rollover(s.prev, now) && s.ts[s.q[0]].next > now {
      FrontIsLeast(s, now);
    } else {
      var all := Rollover(s.prev, now);
      var e := if all then |s.q| else ExpiredCount(s.ts, s.q, now, probe);
      if !all {
        ExpiredIsExact(s.ts, s.q, now, probe);
      }
      ExpireCut(s, now, e, all);
    }
  }

  lemma FrontIsLeast(s: State, now: nat)
    requires Inv(s) && s.q != [] && s.ts[s.q[0]].next > now
    ensures forall id | id in s.q :: s.ts[id].next > now
  {
  }

  lemma ExpireCut(s: State, now: nat, e: nat, all: bool)
    requires Inv(s) && e <= |s.q|
    requires forall i | 0 <= i < |s.q| :: i < e <==> all || s.ts[s.q[i]].next <= now
    ensures var r := FireAll(s.ts, s.q[e..], s.q[..e], now);
            var t := State(r.ts, r.q, s.tickled, now);
            && Inv(t) && t.ts.Keys == s.ts.Keys
            && (forall id | id in s.ts ::
                  var due := id in s.q && (all || s.ts[id].next <= now);
                  && t.ts[id] == (if due then AfterFire(s.ts[id], now) else s.ts[id])
                  && (id in t.q <==> id in s.q && (due ==> s.ts[id].recurring))
                  && (due <==> exists i :: 0 <= i < |r.fired| && r.fired[i].id == id))
            && (forall i | 0 <= i < |r.fired| :: r.fired[i].id in s.ts && r.fired[i].cb == s.ts[r.fired[i].id].cb)
            && (forall i, j | 0 <= i < j < |r.fired| ::
                  r.fired[i].id != r.fired[j].id && s.ts[r.fired[i].id].next <= s.ts[r.fired[j].id].next)
  {
    hide FireAll;
    CutSorted(s.ts, s.q, e);
    FireAllSpec(s.ts, s.q[e..], s.q[..e], now);
    var r := FireAll(s.ts, s.q[e..], s.q[..e], now);
    forall id | id in s.ts
      ensures id in s.q && (all || s.ts[id].next <= now) <==> id in s.q[..e]
      ensures id in s.q[..e] <==> exists i :: 0 <= i < |r.fired| && r.fired[i].id == id
    {
      assert id in s.q && (all || s.ts[id].next <= now) <==> id in s.q[..e] by {
        hide *;
        CutMember(s, now, e, all, id);
      }
      if id in s.q[..e] {
        var i :| 0 <= i < e && s.q[..e][i] == id;
        assert r.fired[i].id == id;
      }
    }
  }

  lemma CutMember(s: State, now: nat, e: nat, all: bool, id: Id)
    requires Known(s.ts, s.q) && e <= |s.q| && id in s.ts
    requires forall i | 0 <= i < |s.q| :: i < e <==> all || s.ts[s.q[i]].next <= now
    ensures id in s.q && (all || s.ts[id].next <= now) <==> id in s.q[..e]
  {
    if id in s.q && (all || s.ts[id].next <= now) {
      var i :| 0 <= i < |s.q| && s.q[i] == id;
      assert s.q[..e][i] == id;
    }
  }
}
