/** The timer objects and the manager that holds the pending ones, changed in place under the manager's lock. */
module Timers {
  import opened Options
  import opened TimerSet
  import opened TimerModel

  class Timer {
    const addr: Id
    const recurring: bool
    ghost const callable: bool
    const manager: TimerManager
    var ms: nat
    var next: nat
    var cb: Option<Callback>

    constructor (addr: Id, ms: nat, cb: Option<Callback>, recurring: bool, manager: TimerManager, now: nat)
      ensures this.addr == addr && this.manager == manager
      ensures AsRec() == Rec(recurring, cb.Some?, ms, now + ms, cb)
    {
      this.addr := addr;
      this.recurring := recurring;
      this.callable := cb.Some?;
      this.manager := manager;
      this.ms := ms;
      this.next := now + ms;
      this.cb := cb;
    }

    ghost function AsRec(): Rec
      reads this
    {
      Rec(recurring, callable, ms, next, cb)
    }

    /** Takes the timer out of the set. The erased position is never checked to be one. */
    method Cancel() returns (done: bool)
      requires manager.Valid() && manager.Issued(this)
      modifies this`cb, manager`timers
      ensures manager.Valid() && manager.issued == old(manager.issued)
      ensures (manager.View(), done) == TimerModel.Cancel(old(manager.View()), addr)
    {
      hide Inv, Sorted, TimerSet.Find, TimerSet.Erase;
      if cb.None? {
        return false;
      }
      ghost var s := manager.View();
      InvFinds(s, addr);
      CancelKeeps(s, addr);
      cb := None;
      manager.TableAfter(s.ts, addr);
      FindNeedsDeadlines(s.ts, s.q, addr, AsRec());
      var k := manager.Find(this);
      manager.Erase(k);
      done := true;
    }

    /** Starts the period anew. */
    method Refresh(now: nat) returns (done: bool)
      requires manager.Valid() && manager.Issued(this)
      modifies this`ms, this`next, manager`timers
      ensures manager.Valid() && manager.issued == old(manager.issued)
      ensures (manager.View(), done) == TimerModel.Refresh(old(manager.View()), addr, now)
    {
      hide Inv, Sorted, TimerSet.Find, TimerSet.Erase, TimerSet.Insert, TimerModel.Refresh;
      ghost var s := manager.View();
      RefreshByCase(s, addr, now);
      if cb.None? {
        return false;
      }
      var k := manager.Find(this);
      if k == |manager.timers| {
        return false;
      }
      Unlink(k, ms, now + ms);
      manager.Insert(this);
      done := true;
    }

    /** Gives the timer another period, counted from now or from where the old one began. `told` says that the sleeper
        is notified. The first test is made before the lock is taken. */
    method Reset(ms: nat, fromNow: bool, now: nat) returns (done: bool, told: bool)
      requires manager.Valid() && manager.Issued(this)
      modifies this`ms, this`next, manager`timers, manager`tickled
      ensures manager.Valid() && manager.issued == old(manager.issued)
      ensures (manager.View(), done, told) == TimerModel.Reset(old(manager.View()), addr, ms, fromNow, now)
    {
      hide Inv, Sorted, TimerSet.Find, TimerSet.Erase, TimerModel.Enqueue, TimerModel.Reset;
      told := false;
      ghost var s := manager.View();
      ResetByCase(s, addr, ms, fromNow, now);
      if ms == this.ms && !fromNow {
        return true, false;
      }
      if cb.None? {
        return false, false;
      }
      var k := manager.Find(this);
      if k == |manager.timers| {
        return false, false;
      }
      var start := if fromNow then now else next - this.ms;
      Unlink(k, ms, start + ms);
      told := manager.Enqueue(this);
      done := true;
    }

    /** Takes the timer out of the set at `k` and changes its key while it is out. */
    method Unlink(k: nat, ms: nat, next: nat)
      requires manager.Owns() && manager.Issued(this) && k < |manager.timers|
      modifies this`ms, this`next, manager`timers
      ensures manager.Owns() && manager.issued == old(manager.issued)
      ensures var s := old(manager.View());
              manager.View() == s.(ts := s.ts[addr := s.ts[addr].(ms := ms, next := next)], q := TimerSet.Erase(s.q, k))
    {
      hide TimerSet.Erase;
      ghost var s := manager.View();
      manager.Erase(k);
      this.ms := ms;
      this.next := next;
      manager.TableAfter(s.ts, addr);
    }
  }

  class TimerManager {
    /** The ordered set. */
    var timers: seq<Timer>
    var tickled: bool
    var previousTime: nat
    /** Every timer ever made by this manager, by address. */
    ghost var issued: map<Id, Timer>

    constructor (now: nat)
      ensures Valid() && issued == map[]
      ensures View() == State(map[], [], false, now)
    {
      timers := [];
      tickled := false;
      previousTime := now;
      issued := map[];
    }

    ghost predicate Issued(t: Timer)
      reads this`issued
    {
      t.addr in issued && issued[t.addr] == t
    }

    ghost predicate Owns()
      reads this`issued, this`timers
    {
      && (forall id | id in issued :: issued[id].addr == id && issued[id].manager == this)
      && forall i | 0 <= i < |timers| :: Issued(timers[i])
    }

    ghost function Records(): (ts: Table)
      reads this`issued, issued.Values
    {
      map id | id in issued :: issued[id].AsRec()
    }

    ghost function View(): (s: State)
      requires Owns()
      reads this, issued.Values
      ensures Known(s.ts, s.q)
    {
      State(Records(), Addresses(timers), tickled, previousTime)
    }

    ghost predicate Valid()
      reads this, issued.Values
    {
      Owns() && Inv(View())
    }

    /** After changing one timer in place, only its record differs. */
    lemma TableAfter(was: Table, id: Id)
      requires id in issued && was.Keys == issued.Keys
      requires forall x | x in issued && x != id :: was[x] == issued[x].AsRec()
      ensures Records() == was[id := issued[id].AsRec()]
    {
    }

    /** The first stored timer that does not come before the key. */
    method LowerBound(next: nat, addr: Id) returns (k: nat)
      requires Owns()
      ensures k <= |timers| && k == TimerSet.LowerBound(Records(), Addresses(timers), next, addr)
    {
      k := 0;
      while k < |timers| && Less(timers[k].next, timers[k].addr, next, addr)
        invariant k <= |timers|
        invariant forall i | 0 <= i < k :: Less(timers[i].next, timers[i].addr, next, addr)
      {
        k := k + 1;
      }
      FirstNotBefore(Records(), Addresses(timers), next, addr, k);
    }

    method Find(t: Timer) returns (k: nat)
      requires Owns() && Issued(t)
      ensures k <= |timers| && k == TimerSet.Find(Records(), Addresses(timers), t.addr)
    {
      k := LowerBound(t.next, t.addr);
      if k < |timers| && Less(t.next, t.addr, timers[k].next, timers[k].addr) {
        k := |timers|;
      }
    }

    method Erase(k: nat)
      requires Owns() && k < |timers|
      modifies this`timers
      ensures Owns() && Addresses(timers) == TimerSet.Erase(old(Addresses(timers)), k)
    {
      timers := timers[..k] + timers[k + 1..];
      assert Addresses(timers) == TimerSet.Erase(old(Addresses(timers)), k);
    }

    method Insert(t: Timer)
      requires Owns() && Issued(t)
      modifies this`timers
      ensures Owns() && Addresses(timers) == TimerSet.Insert(Records(), old(Addresses(timers)), t.addr)
    {
      var k := LowerBound(t.next, t.addr);
      if k == |timers| || Less(t.next, t.addr, timers[k].next, timers[k].addr) {
        AddressesPut(timers, k, t);
        timers := timers[..k] + [t] + timers[k..];
      }
    }

    /** Puts a timer in the set; `told` when it came out first and the sleeper had not been told yet. */
    method Enqueue(t: Timer) returns (told: bool)
      requires Owns() && Issued(t)
      modifies this`timers, this`tickled
      ensures Owns()
      ensures View() == TimerModel.Enqueue(old(View()), t.addr).0
      ensures told == TimerModel.Enqueue(old(View()), t.addr).1
    {
      hide TimerSet.Insert, Known;
      Insert(t);
      told := timers[0] == t && !tickled;
      assert timers[0] == t <==> Addresses(timers)[0] == t.addr by {
        assert Issued(timers[0]);
      }
      if told {
        tickled := true;
      }
    }

    /** Makes a timer at an address not in use; its deadline was computed before the lock was taken. */
    method AddTimer(addr: Id, ms: nat, cb: Option<Callback>, recurring: bool, now: nat) returns (t: Timer, told: bool)
      requires Valid() && addr !in issued
      modifies this
      ensures Valid() && fresh(t) && t.addr == addr && issued == old(issued)[addr := t]
      ensures (View(), told) == Add(old(View()), addr, ms, cb, recurring, now)
    {
      hide Inv, Sorted, TimerModel.Enqueue;
      ghost var s := View();
      AddKeeps(s, addr, ms, cb, recurring, now);
      t := new Timer(addr, ms, cb, recurring, this, now);
      issued := issued[addr := t];
      assert Records() == s.ts[addr := t.AsRec()];
      told := Enqueue(t);
    }

    /** How long the sleeper may sleep, `None` for ever; it counts as not told from here on. */
    method GetNextTimer(now: nat) returns (wait: Option<nat>)
      requires Valid()
      modifies this`tickled
      ensures Valid() && (View(), wait) == GetNext(old(View()), now)
    {
      tickled := false;
      if timers == [] {
        return None;
      }
      if now >= timers[0].next {
        return Some(0);
      }
      return Some(timers[0].next - now);
    }

    method DetectClockRollover(now: nat) returns (rollover: bool)
      modifies this`previousTime
      ensures rollover == Rollover(old(previousTime), now) && previousTime == now
    {
      rollover := now < previousTime && now < Words.Wrap(previousTime - ONE_HOUR, 64);
      previousTime := now;
    }

    /** Hands out the callbacks of the expired timers; recurring ones go back into the set. `probe` is the address the
        timer made for the search happens to get. */
    method ListExpired(now: nat, probe: Id) returns (fired: seq<Fired>)
      requires Valid()
      modifies this, issued.Values
      ensures Valid() && issued == old(issued)
      ensures (View(), fired) == Expire(old(View()), now, probe)
    {
      hide Inv, Sorted, FireAll, ExpiredCount, Rollover;
      ghost var s := View();
      ExpireInv(s, now, probe);
      if timers == [] {
        return [];
      }
      var rollover := DetectClockRollover(now);
      if !rollover && timers[0].next > now {
        return [];
      }
      var expired := TakeExpired(rollover, now, probe);
      fired := Fire(expired, now);
    }

    /** Cuts the expired timers off the front of the set. */
    method TakeExpired(rollover: bool, now: nat, probe: Id) returns (expired: seq<Timer>)
      requires Owns()
      modifies this`timers
      ensures Owns() && forall i | 0 <= i < |expired| :: Issued(expired[i])
      ensures var q := old(Addresses(timers));
              var e := if rollover then |q| else ExpiredCount(Records(), q, now, probe);
              Addresses(timers) == q[e..] && Addresses(expired) == q[..e]
    {
      hide TimerSet.LowerBound, SkipDue, Addresses, Records, Known;
      var it: nat := |timers|;
      if !rollover {
        it := LowerBound(now, probe);
        it := SkipDueNow(it, now);
      }
      AddressesCut(timers, it);
      expired := timers[..it];
      timers := timers[it..];
    }

    method SkipDueNow(from: nat, now: nat) returns (it: nat)
      requires Owns() && from <= |timers|
      ensures it <= |timers| && it == SkipDue(Records(), Addresses(timers), from, now)
    {
      it := from;
      while it < |timers| && timers[it].next == now
        invariant from <= it <= |timers|
        invariant forall i | from <= i < it :: timers[i].next == now
      {
        it := it + 1;
      }
      FirstNotDueNow(Records(), Addresses(timers), from, now, it);
    }

    method Fire(expired: seq<Timer>, now: nat) returns (fired: seq<Fired>)
      requires Owns() && Known(Records(), Addresses(expired))
      requires forall i | 0 <= i < |expired| :: Issued(expired[i])
      modifies this`timers, issued.Values
      ensures Owns()
      ensures var r := FireAll(old(Records()), old(Addresses(timers)), Addresses(expired), now);
              Records() == r.ts && Addresses(timers) == r.q && fired == r.fired
    {
      hide FireAll;
      fired := [];
      var n := 0;
      ghost var whole := FireAll(Records(), Addresses(timers), Addresses(expired), now);
      assert expired[0..] == expired;
      while n < |expired|
        invariant 0 <= n <= |expired| && Owns()
        invariant Known(Records(), Addresses(expired[n..]))
        invariant Fires(whole, fired, FireAll(Records(), Addresses(timers), Addresses(expired[n..]), now))
      {
        ghost var ts, q, rest := Records(), Addresses(timers), Addresses(expired[n..]);
        assert rest[1..] == Addresses(expired[n + 1..]);
        FireAllStep(whole, fired, ts, q, rest, now);
        fired := fired + [Fired(expired[n].addr, expired[n].cb)];
        FireOne(expired[n], now);
        n := n + 1;
      }
      FireAllEnd(whole, fired, Records(), Addresses(timers), now);
    }

    method FireOne(t: Timer, now: nat)
      requires Owns() && Issued(t)
      modifies this`timers, t`next, t`cb
      ensures Owns()
      ensures var ts := old(Records())[t.addr := AfterFire(old(t.AsRec()), now)];
              && Records() == ts
              && Addresses(timers) == if t.recurring then TimerSet.Insert(ts, old(Addresses(timers)), t.addr)
                                      else old(Addresses(timers))
    {
      hide TimerSet.Insert;
      ghost var ts := Records();
      if t.recurring {
        t.next := now + t.ms;
        TableAfter(ts, t.addr);
        Insert(t);
      } else {
        t.cb := None;
        TableAfter(ts, t.addr);
      }
    }
  }

  ghost function Addresses(timers: seq<Timer>): (q: seq<Id>)
    ensures |q| == |timers| && forall i | 0 <= i < |q| :: q[i] == timers[i].addr
  {
    seq(|timers|, i requires 0 <= i < |timers| => timers[i].addr)
  }

  lemma AddressesCut(timers: seq<Timer>, e: nat)
    requires e <= |timers|
    ensures Addresses(timers[..e]) == Addresses(timers)[..e] && Addresses(timers[e..]) == Addresses(timers)[e..]
  {
  }

  lemma AddressesPut(timers: seq<Timer>, k: nat, t: Timer)
    requires k <= |timers|
    ensures Addresses(timers[..k] + [t] + timers[k..]) == Addresses(timers)[..k] + [t.addr] + Addresses(timers)[k..]
  {
  }

  lemma FirstNotBefore(ts: Table, q: seq<Id>, next: nat, id: Id, k: nat)
    requires Known(ts, q) && k <= |q|
    requires forall i | 0 <= i < k :: Less(ts[q[i]].next, q[i], next, id)
    requires k < |q| ==> !Less(ts[q[k]].next, q[k], next, id)
    ensures LowerBound(ts, q, next, id) == k
  {
  }

  lemma FirstNotDueNow(ts: Table, q: seq<Id>, from: nat, now: nat, e: nat)
    requires Known(ts, q) && from <= e <= |q|
    requires forall i | from <= i < e :: ts[q[i]].next == now
    requires e < |q| ==> ts[q[e]].next != now
    ensures SkipDue(ts, q, from, now) == e
  {
  }

  /** The search looks at deadlines and addresses only. */
  lemma FindNeedsDeadlines(ts: Table, q: seq<Id>, id: Id, r: Rec)
    requires Known(ts, q) && id in ts && r.next == ts[id].next
    ensures Find(ts[id := r], q, id) == Find(ts, q, id)
  {
  }

  lemma RefreshByCase(s: State, id: Id, now: nat)
    requires Inv(s) && id in s.ts
    ensures Inv(TimerModel.Refresh(s, id, now).0)
    ensures var r := TimerModel.Refresh(s, id, now);
            if s.ts[id].cb.None? then r == (s, false)
            else
              var k := Find(s.ts, s.q, id);
              var ts := s.ts[id := s.ts[id].(ms := s.ts[id].ms, next := now + s.ts[id].ms)];
              && k < |s.q| && Known(ts, Erase(s.q, k))
              && r.0 == s.(ts := ts, q := Insert(ts, Erase(s.q, k), id)) && r.1
  {
    RefreshKeeps(s, id, now);
    if s.ts[id].cb.Some? {
      InvFinds(s, id);
      EraseKeeps(s.ts, s.q, Find(s.ts, s.q, id));
    }
  }

  lemma ResetByCase(s: State, id: Id, ms: nat, fromNow: bool, now: nat)
    requires Inv(s) && id in s.ts
    ensures Inv(TimerModel.Reset(s, id, ms, fromNow, now).0)
    ensures var r := TimerModel.Reset(s, id, ms, fromNow, now);
            if ms == s.ts[id].ms && !fromNow then r == (s, true, false)
            else if s.ts[id].cb.None? then r == (s, false, false)
            else
              var k := Find(s.ts, s.q, id);
              && k < |s.q| && s.ts[id].ms <= s.ts[id].next && Known(s.ts, Erase(s.q, k))
              && var start := if fromNow then now else s.ts[id].next - s.ts[id].ms;
                 var e := Enqueue(s.(ts := s.ts[id := s.ts[id].(ms := ms, next := start + ms)], q := Erase(s.q, k)), id);
                 r.0 == e.0 && r.1 && r.2 == e.1
  {
    ResetKeeps(s, id, ms, fromNow, now);
    if s.ts[id].cb.Some? {
      InvFinds(s, id);
      EraseKeeps(s.ts, s.q, Find(s.ts, s.q, id));
    }
  }

  lemma ExpireInv(s: State, now: nat, probe: Id)
    requires Inv(s)
    ensures Inv(Expire(s, now, probe).0)
  {
    ExpireSpec(s, now, probe);
  }

  /** `whole` is what firing the batch yields when `fired` has been handed out and `r` is what the rest yields. */
  ghost predicate Fires(whole: FireResult, fired: seq<Fired>, r: FireResult) {
    whole == r.(fired := fired + r.fired)
  }

  lemma FireAllStep(whole: FireResult, fired: seq<Fired>, ts: Table, q: seq<Id>, ex: seq<Id>, now: nat)
    requires Known(ts, q) && Known(ts, ex) && ex != []
    requires Fires(whole, fired, FireAll(ts, q, ex, now))
    ensures var ts' := ts[ex[0] := AfterFire(ts[ex[0]], now)];
            var q' := if ts[ex[0]].recurring then Insert(ts', q, ex[0]) else q;
            Fires(whole, fired + [Fired(ex[0], ts[ex[0]].cb)], FireAll(ts', q', ex[1..], now))
  {
  }

  lemma FireAllEnd(whole: FireResult, fired: seq<Fired>, ts: Table, q: seq<Id>, now: nat)
    requires Known(ts, q) && Fires(whole, fired, FireAll(ts, q, [], now))
    ensures whole == FireResult(ts, q, fired)
  {
  }
}
