/** Timers and the ordered set that holds the pending ones, as values. */
module TimerSet {
  import opened Options

  /** A timer is known by its address; addresses are distinct and totally ordered. */
  type Id = nat

  type Callback = nat

  /** `callable` says whether the timer was made with a callback at all; `cb` is the callback still held. */
  datatype Rec = Rec(recurring: bool, callable: bool, ms: nat, next: nat, cb: Option<Callback>)

  type Table = map<Id, Rec>

  /** The order of the set: by deadline, and by address among equal deadlines. */
  predicate Less(next: nat, id: Id, next': nat, id': Id) {
    if next < next' then true else if next' < next then false else id < id'
  }

  predicate Known(ts: Table, q: seq<Id>) {
    forall i | 0 <= i < |q| :: q[i] in ts
  }

  /** The stored keys are strictly ordered, so no timer is stored twice. */
  ghost predicate Sorted(ts: Table, q: seq<Id>)
    requires Known(ts, q)
  {
    forall i, j | 0 <= i < j < |q| :: Less(ts[q[i]].next, q[i], ts[q[j]].next, q[j])
  }

  /** The number of stored timers before the key (next, id): where a search for that key ends. */
  function LowerBound(ts: Table, q: seq<Id>, next: nat, id: Id): (k: nat)
    requires Known(ts, q)
    ensures k <= |q|
    ensures forall i | 0 <= i < k :: Less(ts[q[i]].next, q[i], next, id)
    ensures k < |q| ==> !Less(ts[q[k]].next, q[k], next, id)
  {
    if q == [] || !Less(ts[q[0]].next, q[0], next, id) then 0 else 1 + LowerBound(ts, q[1..], next, id)
  }

  /** Searching for a timer by its own key; `|q|` stands for the end. */
  function Find(ts: Table, q: seq<Id>, id: Id): (k: nat)
    requires Known(ts, q) && id in ts
    ensures k <= |q|
  {
    var k := LowerBound(ts, q, ts[id].next, id);
    if k < |q| && !Less(ts[id].next, id, ts[q[k]].next, q[k]) then k else |q|
  }

  function Erase(q: seq<Id>, k: nat): seq<Id>
    requires k < |q|
  {
    q[..k] + q[k + 1..]
  }

  /** Inserting a timer by its key; an equal key already stored is left alone. */
  function Insert(ts: Table, q: seq<Id>, id: Id): (r: seq<Id>)
    requires Known(ts, q) && id in ts
    ensures r != [] && Known(ts, r)
  {
    var k := LowerBound(ts, q, ts[id].next, id);
    if k < |q| && !Less(ts[id].next, id, ts[q[k]].next, q[k]) then q else q[..k] + [id] + q[k..]
  }

  lemma InOrder(ts: Table, q: seq<Id>, i: nat, j: nat)
    requires Known(ts, q) && Sorted(ts, q) && i <= j < |q|
    ensures i == j || Less(ts[q[i]].next, q[i], ts[q[j]].next, q[j])
  {
  }

  /** With ordered keys the search finds a timer exactly when it is stored. */
  lemma FindIsExact(ts: Table, q: seq<Id>, id: Id)
    requires Known(ts, q) && Sorted(ts, q) && id in ts
    ensures Find(ts, q, id) < |q| <==> id in q
    ensures id in q ==> q[Find(ts, q, id)] == id
  {
  }

  lemma EraseKeeps(ts: Table, q: seq<Id>, k: nat)
    requires Known(ts, q) && Sorted(ts, q) && k < |q|
    ensures Known(ts, Erase(q, k)) && Sorted(ts, Erase(q, k))
    ensures forall id :: id in Erase(q, k) <==> id in q && id != q[k]
  {
  }

  lemma InsertKeeps(ts: Table, q: seq<Id>, id: Id)
    requires Known(ts, q) && Sorted(ts, q) && id in ts && id !in q
    ensures var r := Insert(ts, q, id);
            Known(ts, r) && Sorted(ts, r) && forall x :: x in r <==> x in q || x == id
    ensures Insert(ts, q, id) != []
    ensures Insert(ts, q, id)[0] == if q == [] || Less(ts[id].next, id, ts[q[0]].next, q[0]) then id else q[0]
  {
  }

  /** Changing a timer that is not stored leaves the order alone. */
  lemma UpdateKeeps(ts: Table, q: seq<Id>, id: Id, r: Rec)
    requires Known(ts, q) && Sorted(ts, q) && id !in q
    ensures Known(ts[id := r], q) && Sorted(ts[id := r], q)
  {
  }

  /** Taking a stored timer out and changing it while it is out. */
  lemma TakeOut(ts: Table, q: seq<Id>, id: Id, r: Rec)
    requires Known(ts, q) && Sorted(ts, q) && id in ts && id in q
    ensures var k := Find(ts, q, id);
            && k < |q| && Known(ts[id := r], Erase(q, k)) && Sorted(ts[id := r], Erase(q, k))
            && (forall x :: x in Erase(q, k) <==> x in q && x != id)
  {
  }

  // ---------- expiry ----------

  /** Where the expired timers end: a search for the probe (now, probe), then past every timer due exactly now. */
  function SkipDue(ts: Table, q: seq<Id>, k: nat, now: nat): (e: nat)
    requires Known(ts, q) && k <= |q|
    ensures k <= e <= |q|
    ensures forall i | k <= i < e :: ts[q[i]].next == now
    ensures e < |q| ==> ts[q[e]].next != now
    decreases |q| - k
  {
    if k < |q| && ts[q[k]].next == now then SkipDue(ts, q, k + 1, now) else k
  }

  function ExpiredCount(ts: Table, q: seq<Id>, now: nat, probe: Id): (e: nat)
    requires Known(ts, q)
    ensures e <= |q|
  {
    SkipDue(ts, q, LowerBound(ts, q, now, probe), now)
  }

  /** Wherever the probe timer happens to be allocated, the cut falls right behind the last timer due by `now`. */
  lemma ExpiredIsExact(ts: Table, q: seq<Id>, now: nat, probe: Id)
    requires Known(ts, q) && Sorted(ts, q)
    ensures forall i | 0 <= i < |q| :: i < ExpiredCount(ts, q, now, probe) <==> ts[q[i]].next <= now
  {
  }

  lemma ProbeDoesNotMatter(ts: Table, q: seq<Id>, now: nat, p: Id, p': Id)
    requires Known(ts, q) && Sorted(ts, q)
    ensures ExpiredCount(ts, q, now, p) == ExpiredCount(ts, q, now, p')
  {
  }

  /** A prefix of an ordered set and what is left of it. */
  lemma CutSorted(ts: Table, q: seq<Id>, e: nat)
    requires Known(ts, q) && Sorted(ts, q) && e <= |q|
    ensures Known(ts, q[..e]) && Known(ts, q[e..]) && Sorted(ts, q[e..])
    ensures AllDistinct(q[..e]) && forall id | id in q[..e] :: id !in q[e..]
    ensures forall id :: id in q <==> id in q[..e] || id in q[e..]
  {
  }

  datatype Fired = Fired(id: Id, cb: Option<Callback>)

  /** What firing makes of a timer. */
  function AfterFire(r: Rec, now: nat): Rec {
    if r.recurring then r.(next := now + r.ms) else r.(cb := None)
  }

  datatype FireResult = FireResult(ts: Table, q: seq<Id>, fired: seq<Fired>)

  /** Handing out the expired timers one by one; recurring ones go back into the set. */
  function FireAll(ts: Table, q: seq<Id>, ex: seq<Id>, now: nat): (r: FireResult)
    requires Known(ts, q) && Known(ts, ex)
    decreases |ex|
  {
    if ex == [] then FireResult(ts, q, [])
    else
      var id := ex[0];
      var ts' := ts[id := AfterFire(ts[id], now)];
      var q' := if ts[id].recurring then Insert(ts', q, id) else q;
      var r := FireAll(ts', q', ex[1..], now);
      r.(fired := [Fired(id, ts[id].cb)] + r.fired)
  }

  ghost predicate AllDistinct(q: seq<Id>) {
    forall i, j | 0 <= i < j < |q| :: q[i] != q[j]
  }

  /** What a batch of firings leaves: exactly the fired timers changed, the set still in order, holding what it held
      and the recurring ones among the fired, and the callbacks handed out in the order of the batch. */
  lemma {:induction false} FireAllSpec(ts: Table, q: seq<Id>, ex: seq<Id>, now: nat)
    requires Known(ts, q) && Sorted(ts, q) && Known(ts, ex) && AllDistinct(ex)
    requires forall id | id in ex :: id !in q
    ensures var r := FireAll(ts, q, ex, now);
            && r.ts.Keys == ts.Keys
            && (forall id | id in ts :: r.ts[id] == if id in ex then AfterFire(ts[id], now) else ts[id])
            && Known(r.ts, r.q) && Sorted(r.ts, r.q)
            && (forall id | id in ts :: id in r.q <==> id in q || (id in ex && ts[id].recurring))
            && |r.fired| == |ex|
            && (forall i | 0 <= i < |ex| :: r.fired[i] == Fired(ex[i], ts[ex[i]].cb))
    decreases |ex|
  {
    hide Insert, Sorted;
    if ex == [] {
    } else {
      var id := ex[0];
      assert id in ex;
      var ts' := ts[id := AfterFire(ts[id], now)];
      UpdateKeeps(ts, q, id, AfterFire(ts[id], now));
      InsertKeeps(ts', q, id);
      var q' := if ts[id].recurring then Insert(ts', q, id) else q;
      var rest := ex[1..];
      assert forall x :: x in ex <==> x == id || x in rest;
      assert id !in rest;
      FireAllSpec(ts', q', rest, now);
    }
  }
}
