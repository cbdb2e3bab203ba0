/** The socket as the streams see it. The kernel's answers are an arbitrary list of numbers, so every pattern of short
    transfers, refusals and errors is covered; once the list is used up every call fails. */
module Sockets {
  import opened Layout
  import opened ByteBuffer

  function Min(a: int, b: int): int {
    if a < b then a else b
  }

  /** What a transfer of at most `limit` bytes comes to: an error (-1), or as many bytes as the kernel cares to move. */
  function Reply(answers: seq<int>, limit: nat): (rt: int)
    ensures -1 <= rt <= limit
  {
    if answers == [] || answers[0] < 0 then -1 else Min(answers[0], limit)
  }

  function Rest(answers: seq<int>): seq<int> {
    if answers == [] then [] else answers[1..]
  }

  /** Enough answers, all of them willing, to move `n` bytes whatever their sizes. */
  predicate Willing(answers: seq<int>, n: nat) {
    n <= |answers| && forall i | 0 <= i < |answers| :: answers[i] > 0
  }

  /** How many bytes a loop moves that asks again until it has moved `length` bytes or a transfer fails, `avail` bytes
      being there to move. */
  function Moves(answers: seq<int>, length: nat, avail: nat): (n: nat)
    ensures n <= length && n <= avail
    decreases length
  {
    if length == 0 then 0
    else
      var rt := Reply(answers, Min(length, avail));
      if rt <= 0 then 0 else rt + Moves(Rest(answers), length - rt, avail - rt)
  }

  /** The answers such a loop leaves. */
  function MovesRest(answers: seq<int>, length: nat, avail: nat): (rest: seq<int>)
    ensures |rest| <= |answers|
    decreases length
  {
    if length == 0 then answers
    else
      var rt := Reply(answers, Min(length, avail));
      if rt <= 0 then Rest(answers) else MovesRest(Rest(answers), length - rt, avail - rt)
  }

  /** Whether it is an error that ends such a loop, and not the end of the connection or success. */
  predicate MovesFails(answers: seq<int>, length: nat, avail: nat)
    decreases length
  {
    length > 0
    && var rt := Reply(answers, Min(length, avail));
       rt < 0 || (rt > 0 && MovesFails(Rest(answers), length - rt, avail - rt))
  }

  lemma OneMove(answers: seq<int>, length: nat, avail: nat)
    requires length > 0
    ensures var rt := Reply(answers, Min(length, avail));
            && rt <= length && rt <= avail
            && (if rt <= 0 then
                  && Moves(answers, length, avail) == 0 && MovesRest(answers, length, avail) == Rest(answers)
                  && MovesFails(answers, length, avail) == (rt < 0)
                else
                  && Moves(answers, length, avail) == rt + Moves(Rest(answers), length - rt, avail - rt)
                  && MovesRest(answers, length, avail) == MovesRest(Rest(answers), length - rt, avail - rt)
                  && MovesFails(answers, length, avail) == MovesFails(Rest(answers), length - rt, avail - rt))
  {
  }

  lemma NoMove(answers: seq<int>, avail: nat)
    ensures Moves(answers, 0, avail) == 0 && MovesRest(answers, 0, avail) == answers && !MovesFails(answers, 0, avail)
  {
  }

  /** One turn of such a loop, on a connection that may be closed. */
  lemma MovesStep(connected: bool, answers: seq<int>, left: nat, avail: nat)
    requires left > 0
    ensures var rt := if connected then Reply(answers, Min(left, avail)) else -1;
            && rt <= left && rt <= avail
            && MovesIf(connected, answers, left, avail) ==
                 (if rt <= 0 then 0 else rt + MovesIf(connected, Rest(answers), left - rt, avail - rt))
            && FailsIf(connected, answers, left, avail) ==
                 if rt <= 0 then rt < 0 else FailsIf(connected, Rest(answers), left - rt, avail - rt)
  {
  }

  lemma MovesNothing(connected: bool, answers: seq<int>, avail: nat)
    ensures MovesIf(connected, answers, 0, avail) == 0
    ensures FailsIf(connected, answers, 0, avail) ==> !connected
  {
  }

  /** A closed connection moves nothing. */
  function MovesIf(connected: bool, answers: seq<int>, length: nat, avail: nat): (n: nat)
    ensures n <= length && n <= avail
  {
    if connected then Moves(answers, length, avail) else 0
  }

  /** A loop on a closed connection fails. */
  predicate FailsIf(connected: bool, answers: seq<int>, length: nat, avail: nat) {
    !connected || MovesFails(answers, length, avail)
  }

  /** A willing kernel moves everything there is, in whatever pieces; the loop ends well, or at the end of the
      connection. */
  lemma {:induction false} WillingMovesAll(answers: seq<int>, length: nat, avail: nat)
    requires Willing(answers, length)
    ensures Moves(answers, length, avail) == Min(length, avail) && !MovesFails(answers, length, avail)
    ensures length <= avail ==> Willing(MovesRest(answers, length, avail), |answers| - length)
    decreases length
  {
    if length == 0 {
    } else {
      var rt := Reply(answers, Min(length, avail));
      if rt > 0 {
        WillingStep(answers, length, Min(length, avail));
        WillingMovesAll(Rest(answers), length - rt, avail - rt);
      }
    }
  }

  lemma WillingStep(answers: seq<int>, n: nat, limit: nat)
    requires Willing(answers, n) && n > 0
    ensures var rt := Reply(answers, limit);
            rt >= 0 && (limit > 0 ==> rt > 0) && (0 < rt <= n ==> Willing(Rest(answers), n - rt))
  {
  }

  class Socket {
    var answers: seq<int>
    var inbox: seq<Byte>
    var outbox: seq<Byte>
    var connected: bool

    /** The kernel's next answer. */
    method Answer() returns (a: int)
      modifies this`answers
      ensures answers == Rest(old(answers)) && a == if old(answers) == [] then -1 else old(answers)[0]
    {
      if answers == [] {
        return -1;
      }
      a := answers[0];
      answers := answers[1..];
    }

    /** Receives into views: some of what has arrived, as much as the kernel cares to hand over. `was` records what the
        arrays held before. */
    method Recv(vs: seq<IoVec>, ghost was: map<array<Byte>, seq<Byte>>) returns (rt: int)
      requires InBounds(vs) && CellsDistinct(vs)
      requires Bases(vs) <= was.Keys && forall a | a in was :: was[a] == a[..]
      modifies this`answers, this`inbox, Bases(vs)
      ensures rt == Reply(old(answers), Min(Total(vs), |old(inbox)|)) && answers == Rest(old(answers))
      ensures inbox == old(inbox)[if rt > 0 then rt else 0..]
      ensures FilledOver(vs, if rt > 0 then old(inbox)[..rt] else [], was)
    {
      var a := Answer();
      if a < 0 {
        return -1;
      }
      rt := Min(a, Min(Total(vs), |inbox|));
      Fill(vs, inbox[..rt], was);
      inbox := inbox[rt..];
    }

    /** Receives up to `n` bytes; -1 is an error and 0 means nothing more will come. */
    method RecvBytes(n: nat) returns (rt: int, data: seq<Byte>)
      modifies this`answers, this`inbox
      ensures rt == Reply(old(answers), Min(n, |old(inbox)|)) && answers == Rest(old(answers))
      ensures data == (if rt > 0 then old(inbox)[..rt] else []) && inbox == old(inbox)[|data|..]
    {
      var a := Answer();
      if a < 0 {
        return -1, [];
      }
      rt := Min(a, Min(n, |inbox|));
      data := inbox[..rt];
      inbox := inbox[rt..];
    }

    /** Sends some of `bs`; -1 is an error. */
    method SendBytes(bs: seq<Byte>) returns (rt: int)
      modifies this`answers, this`outbox
      ensures rt == Reply(old(answers), |bs|) && answers == Rest(old(answers))
      ensures outbox == old(outbox) + if rt > 0 then bs[..rt] else []
    {
      var a := Answer();
      if a < 0 {
        return -1;
      }
      rt := Min(a, |bs|);
      outbox := outbox + bs[..rt];
    }

    /** Sends from views. */
    method Send(vs: seq<IoVec>) returns (rt: int, ghost sent: seq<Byte>)
      requires InBounds(vs)
      modifies this`answers, this`outbox
      ensures rt == Reply(old(answers), Total(vs)) && answers == Rest(old(answers))
      ensures outbox == old(outbox) + sent && |sent| == (if rt > 0 then rt else 0)
      ensures forall i: nat | i < rt :: sent[i] == CellOf(vs, i).0[CellOf(vs, i).1]
    {
      sent := [];
      var a := Answer();
      if a < 0 {
        return -1, [];
      }
      rt := Min(a, Total(vs));
      var bs := Take(vs, rt);
      outbox := outbox + bs;
      sent := bs;
    }
  }

  /** Spreads `data` over the views, in order. */
  method Fill(vs: seq<IoVec>, data: seq<Byte>, ghost was: map<array<Byte>, seq<Byte>>)
    requires InBounds(vs) && CellsDistinct(vs) && |data| <= Total(vs)
    requires Bases(vs) <= was.Keys && forall a | a in was :: was[a] == a[..]
    modifies Bases(vs)
    ensures FilledOver(vs, data, was)
    decreases |vs|
  {
    if data == [] {
      return;
    }
    var n := Min(vs[0].len, |data|);
    ghost var mid := FillFirst(vs[0], data, n, was);
    RestDistinct(vs);
    Fill(vs[1..], data[n..], mid);
    FillCompose(vs, data, n, was, mid);
  }

  /** Fills the first bytes of one view; `mid` records the arrays afterwards. */
  method FillFirst(v: IoVec, data: seq<Byte>, n: nat, ghost was: map<array<Byte>, seq<Byte>>)
    returns (ghost mid: map<array<Byte>, seq<Byte>>)
    requires n <= v.len && n <= |data| && v.offset + v.len <= v.base.Length
    requires v.base in was && forall a | a in was :: was[a] == a[..]
    modifies v.base
    ensures FirstFilled(v, data, n, was, mid) && forall a | a in mid :: mid[a] == a[..]
  {
    forall i | 0 <= i < n {
      v.base[v.offset + i] := data[i];
    }
    mid := map a | a in was :: a[..];
  }

  /** `mid` differs from `was` in the first `n` bytes of one view, which hold `data`. */
  ghost predicate FirstFilled(v: IoVec, data: seq<Byte>, n: nat, was: map<array<Byte>, seq<Byte>>,
                              mid: map<array<Byte>, seq<Byte>>) {
    && n <= |data| && was.Keys == mid.Keys
    && (forall a | a in was :: |was[a]| == |mid[a]| == a.Length)
    && forall a, j: nat | a in was && j < a.Length ::
         mid[a][j] == if a == v.base && v.offset <= j < v.offset + n then data[j - v.offset] else was[a][j]
  }

  /** Filling the first view and then the others fills them all. */
  lemma FillCompose(vs: seq<IoVec>, data: seq<Byte>, n: nat, was: map<array<Byte>, seq<Byte>>,
                    mid: map<array<Byte>, seq<Byte>>)
    requires vs != [] && InBounds(vs) && CellsDistinct(vs) && |data| <= Total(vs) && n == Min(vs[0].len, |data|)
    requires Bases(vs) <= was.Keys && FirstFilled(vs[0], data, n, was, mid)
    requires FilledOver(vs[1..], data[n..], mid)
    ensures FilledOver(vs, data, was)
  {
    hide CellsDistinct, Bases;
    forall i | 0 <= i < |data|
      ensures CellOf(vs, i).0[CellOf(vs, i).1] == data[i]
    {
      ComposedData(vs, data, n, was, mid, i);
    }
    forall a, j: nat | a in was && j < a.Length && forall i | 0 <= i < |data| :: CellOf(vs, i) != (a, j)
      ensures a[j] == was[a][j]
    {
      ComposedKept(vs, data, n, was, mid, a, j);
    }
  }

  lemma ComposedData(vs: seq<IoVec>, data: seq<Byte>, n: nat, was: map<array<Byte>, seq<Byte>>,
                     mid: map<array<Byte>, seq<Byte>>, i: nat)
    requires vs != [] && InBounds(vs) && CellsDistinct(vs) && |data| <= Total(vs) && n == Min(vs[0].len, |data|)
    requires Bases(vs) <= was.Keys && FirstFilled(vs[0], data, n, was, mid)
    requires FilledOver(vs[1..], data[n..], mid) && i < |data|
    ensures CellOf(vs, i).0[CellOf(vs, i).1] == data[i]
  {
    hide CellsDistinct, FilledOver, FirstFilled, Bases, InBounds, CellOf;
    if i < n {
      ComposedHere(vs, data, n, was, mid, i);
    } else {
      ComposedRest(vs, data, n, mid, i);
    }
  }

  lemma ComposedHere(vs: seq<IoVec>, data: seq<Byte>, n: nat, was: map<array<Byte>, seq<Byte>>,
                     mid: map<array<Byte>, seq<Byte>>, i: nat)
    requires vs != [] && InBounds(vs) && CellsDistinct(vs) && |data| <= Total(vs) && n == Min(vs[0].len, |data|)
    requires Bases(vs) <= was.Keys && FirstFilled(vs[0], data, n, was, mid)
    requires FilledOver(vs[1..], data[n..], mid) && i < n
    ensures CellOf(vs, i).0[CellOf(vs, i).1] == data[i]
  {
    hide CellsDistinct, FilledOver;
    RestDistinct(vs);
    KeptCell(vs[1..], data[n..], mid, CellOf(vs, i));
  }

  lemma ComposedRest(vs: seq<IoVec>, data: seq<Byte>, n: nat, mid: map<array<Byte>, seq<Byte>>, i: nat)
    requires vs != [] && InBounds(vs) && |data| <= Total(vs) && n == Min(vs[0].len, |data|)
    requires FilledOver(vs[1..], data[n..], mid) && n <= i < |data|
    ensures CellOf(vs, i).0[CellOf(vs, i).1] == data[i]
  {
    hide InBounds;
    assert data[i] == data[n..][i - n];
    assert CellOf(vs, i) == CellOf(vs[1..], i - n);
  }

  lemma ComposedKept(vs: seq<IoVec>, data: seq<Byte>, n: nat, was: map<array<Byte>, seq<Byte>>,
                     mid: map<array<Byte>, seq<Byte>>, a: array<Byte>, j: nat)
    requires vs != [] && InBounds(vs) && |data| <= Total(vs) && n == Min(vs[0].len, |data|)
    requires FirstFilled(vs[0], data, n, was, mid) && FilledOver(vs[1..], data[n..], mid)
    requires a in was && j < a.Length && forall i | 0 <= i < |data| :: CellOf(vs, i) != (a, j)
    ensures a[j] == was[a][j]
  {
    hide FilledOver, Bases;
    forall i | 0 <= i < |data[n..]|
      ensures CellOf(vs[1..], i) != (a, j)
    {
      assert CellOf(vs, i + n) != (a, j);
    }
    KeptCell(vs[1..], data[n..], mid, (a, j));
    if a == vs[0].base && vs[0].offset <= j < vs[0].offset + n {
      assert CellOf(vs, j - vs[0].offset) == (a, j);
    }
  }

  lemma RestDistinct(vs: seq<IoVec>)
    requires vs != [] && CellsDistinct(vs)
    ensures CellsDistinct(vs[1..])
    ensures forall i, j | 0 <= i < vs[0].len && 0 <= j < Total(vs[1..]) :: CellOf(vs, i) != CellOf(vs[1..], j)
  {
    forall i | 0 <= i < Total(vs[1..])
      ensures CellOf(vs[1..], i) == CellOf(vs, i + vs[0].len)
    {
    }
  }

  /** Collects the first `n` bytes of the views. */
  method Take(vs: seq<IoVec>, n: nat) returns (bs: seq<Byte>)
    requires InBounds(vs) && n <= Total(vs)
    ensures |bs| == n
    ensures forall i | 0 <= i < n :: bs[i] == CellOf(vs, i).0[CellOf(vs, i).1]
    decreases |vs|
  {
    if n == 0 {
      return [];
    }
    var v := vs[0];
    var k := Min(v.len, n);
    var rest := Take(vs[1..], n - k);
    bs := v.base[v.offset..v.offset + k] + rest;
  }
}

/** Socket streams: single transfers through buffer views, and the loops that repeat them for a fixed size. */
module Streams {
  import opened Basics
  import opened Words
  import opened Layout
  import opened ByteBuffer
  import opened Sockets
  import opened Transfers

  /** `bs` has arrived at the position, in a buffer that made room for `want` bytes. */
  ghost predicate FlatReceive(f: Flat, bs: seq<Byte>, want: nat, g: Flat, n: nat) {
    && n > 0 && FlatOk(f) && |bs| <= want
    && g.position == f.position + |bs|
    && g.size == (if g.position > f.size then g.position else f.size)
    && g.little == f.little
    && f.position + want <= |g.mem| == GrownCapacity(|f.mem|, f.position, want, n)
    && |f.mem| <= |g.mem|
    && g.mem[..g.position] == f.mem[..f.position] + bs
    && (g.position <= |f.mem| ==> g.mem[g.position..|f.mem|] == f.mem[g.position..])
  }

  lemma RoomEnough(capacity: nat, position: nat, want: nat, n: nat)
    requires n > 0 && position + want <= capacity
    ensures GrownCapacity(capacity, position, want, n) == capacity
  {
  }

  /** Two receptions in a row, the second into the room the first left over. */
  lemma ReceiveMore(f: Flat, a: seq<Byte>, want: nat, g: Flat, b: seq<Byte>, h: Flat, n: nat)
    requires FlatReceive(f, a, want, g, n) && FlatReceive(g, b, want - |a|, h, n)
    ensures FlatReceive(f, a + b, want, h, n)
  {
    RoomEnough(|g.mem|, g.position, want - |a|, n);
    hide GrownCapacity;
    assert h.mem[..g.position] == g.mem[..g.position];
    assert f.mem[..f.position] + a + b == f.mem[..f.position] + (a + b);
    if h.position <= |f.mem| {
      TailKept(f.mem, g.mem, h.mem, g.position, h.position);
    }
  }

  /** `bs` has arrived, or nothing has happened at all. */
  ghost predicate Arrived(f: Flat, bs: seq<Byte>, want: nat, g: Flat, n: nat) {
    FlatReceive(f, bs, want, g, n) || (bs == [] && g == f)
  }

  lemma ArrivedNothing(f: Flat, inbox: seq<Byte>, want: nat, n: nat)
    ensures Arrived(f, inbox[..0], want, f, n) && inbox[0..] == inbox
  {
  }

  /** The next `k` of the bytes that are there have arrived behind the first `got`. */
  lemma ArrivedMore(f: Flat, inbox: seq<Byte>, got: nat, want: nat, g: Flat, k: nat, h: Flat, n: nat)
    requires got + k <= want && got + k <= |inbox|
    requires Arrived(f, inbox[..got], want, g, n) && Arrived(g, inbox[got..][..k], want - got, h, n)
    ensures Arrived(f, inbox[..got + k], want, h, n) && inbox[got..][k..] == inbox[got + k..]
  {
    hide FlatReceive;
    assert inbox[..got] + inbox[got..][..k] == inbox[..got + k];
    if FlatReceive(f, inbox[..got], want, g, n) && FlatReceive(g, inbox[got..][..k], want - got, h, n) {
      ReceiveMore(f, inbox[..got], want, g, inbox[got..][..k], h, n);
    }
  }

  /** `k` unread bytes have gone out, once and in order, and the position has passed them. */
  ghost predicate Departed(f: Flat, out: seq<Byte>, k: nat, g: Flat, out': seq<Byte>) {
    && f.position <= f.size <= |f.mem| && k <= f.size - f.position
    && g == f.(position := f.position + k)
    && out' == out + f.mem[f.position..f.position + k]
  }

  lemma DepartedNothing(f: Flat, out: seq<Byte>)
    requires FlatOk(f)
    ensures Departed(f, out, 0, f, out)
  {
  }

  lemma DepartedMore(f: Flat, out: seq<Byte>, k: nat, g: Flat, out': seq<Byte>, m: nat, h: Flat, out'': seq<Byte>)
    requires Departed(f, out, k, g, out') && Departed(g, out', m, h, out'')
    ensures Departed(f, out, k + m, h, out'') && f.size - f.position - k == g.size - g.position
  {
    Assoc(out, f.mem[f.position..f.position + k], f.mem[f.position + k..f.position + k + m]);
    SliceStep(f.mem, f.position, f.position + k, f.position + k + m);
  }

  lemma DepartedUnread(f: Flat, out: seq<Byte>, k: nat, g: Flat, out': seq<Byte>)
    requires Departed(f, out, k, g, out')
    ensures FlatOk(g) && g.size - g.position == f.size - f.position - k
  {
  }

  /** Bytes kept by each of two steps are kept by both. */
  lemma TailKept(f: seq<Byte>, g: seq<Byte>, h: seq<Byte>, p: nat, q: nat)
    requires p <= q <= |f| <= |g| <= |h|
    requires g[p..|f|] == f[p..] && h[q..|g|] == g[q..]
    ensures h[q..|f|] == f[q..]
  {
    SlicesAgree(h, g, q, |g|);
    SlicesAgree(g, f, p, |f|);
  }

  /** A C `int` made from a size. */
  function ToInt(n: nat): int {
    Signed(Wrap(n, 32), 32)
  }

  lemma ToIntMeans(n: nat)
    ensures n < 0x8000_0000 ==> ToInt(n) == n
    ensures 0x8000_0000 <= n < 0x1_0000_0000 ==> ToInt(n) == n - 0x1_0000_0000
  {
    Pow32();
    hide Pow2;
    if n < 0x1_0000_0000 {
      WrapSmall(n, 32);
    }
  }

  /** How a fixed-size loop ends, told by the kernel's answers: `moved` bytes, the length when that is all, -1 when the
      connection is closed or an error ended the loop, and 0 when a transfer that moved nothing did. */
  ghost predicate Ends(connected: bool, answers: seq<int>, length: nat, avail: nat, moved: nat, ret: int) {
    && moved == (if connected then Min(Min(length, avail), Ready(answers)) else 0)
    && (moved == length <==> length == 0 || (connected && Completes(answers, length, avail)))
    && (moved == length && length < 0x8000_0000 ==> ret == length)
    && (moved < length ==>
          && (ret == -1 <==> !connected || EndsInError(answers, length, avail))
          && (ret == 0 <==> connected && EndsInNothing(answers, length, avail)))
  }

  lemma EndsSo(connected: bool, answers: seq<int>, length: nat, avail: nat, moved: nat, ret: int)
    requires moved == MovesIf(connected, answers, length, avail)
    requires moved == length ==> ret == ToInt(length)
    requires moved < length ==> ret == if FailsIf(connected, answers, length, avail) then -1 else 0
    ensures Ends(connected, answers, length, avail, moved, ret)
  {
    hide ToInt, Moves, MovesFails, Completes, EndsInError, EndsInNothing, Ready;
    ToIntMeans(length);
    MovesReady(answers, length, avail);
    CompletesIff(answers, length, avail);
    FailsIff(answers, length, avail);
    EndsIff(answers, length, avail);
  }

  class SocketStream {
    const socket: Socket

    constructor (socket: Socket)
      ensures this.socket == socket
    {
      this.socket := socket;
    }

    /** One receive straight into the blocks: bytes land at the position, which moves past them. */
    method Read(ba: ByteArray, length: nat) returns (rt: int)
      requires ba.Valid()
      modifies socket`answers, socket`inbox, ba, ba.nodes, ba.Arrays()
      ensures ba.Valid() && ba.OnlyGrows()
      ensures rt == if socket.connected then Reply(old(socket.answers), Min(length, |old(socket.inbox)|)) else -1
      ensures socket.answers == if socket.connected then Rest(old(socket.answers)) else old(socket.answers)
      ensures socket.inbox == old(socket.inbox)[if rt > 0 then rt else 0..]
      ensures if socket.connected then
                FlatReceive(old(ba.View()), if rt > 0 then old(socket.inbox)[..rt] else [], length, ba.View(), ba.baseSize)
              else ba.View() == old(ba.View())
      ensures Arrived(old(ba.View()), old(socket.inbox)[..if rt > 0 then rt else 0], length, ba.View(), ba.baseSize)
    {
      hide ByteArray.Shape, ByteArray.Mem, ByteArray.At, ByteArray.Maps, Splice, FlatReceive, GrownCapacity;
      if !socket.connected {
        return -1;
      }
      ghost var f := ba.View();
      var iovs := ba.GetWriteBuffers(length);
      ghost var g := ba.View();
      rt := RecvInto(ba, iovs, length);
      if rt > 0 {
        var ok := ba.SetPosition(ba.position + rt);
      }
      Received(f, g, ba.View(), length, if rt > 0 then old(socket.inbox)[..rt] else [], ba.baseSize);
    }

    /** The receive itself: the bytes overwrite the flat positions the views stand for. */
    method RecvInto(ba: ByteArray, iovs: seq<IoVec>, length: nat) returns (rt: int)
      requires ba.Valid() && ba.Maps(iovs, ba.position, length)
      modifies socket`answers, socket`inbox, ba.Arrays()
      ensures ba.Valid() && ba.position + length <= ba.capacity
      ensures rt == Reply(old(socket.answers), Min(length, |old(socket.inbox)|))
      ensures socket.answers == Rest(old(socket.answers))
      ensures socket.inbox == old(socket.inbox)[if rt > 0 then rt else 0..]
      ensures ba.Mem() == Splice(old(ba.Mem()), ba.position, if rt > 0 then old(socket.inbox)[..rt] else [])
    {
      hide ByteArray.Shape, ByteArray.Mem, ByteArray.Maps, ByteArray.CursorOk, ByteArray.Arrays;
      hide CellsDistinct, Bases, Total, InBounds, Splice;
      ba.MapsFacts(iovs, ba.position, length);
      ghost var was := map a | a in ba.Arrays() :: a[..];
      ghost var before := ba.Mem();
      ba.RecordMem(was);
      ba.MapsDistinct(iovs, ba.position, length);
      rt := socket.Recv(iovs, was);
      ba.ScatterIsSplice(iovs, ba.position, length, if rt > 0 then old(socket.inbox)[..rt] else [], before, was);
    }

    /** One send straight from the blocks: unread bytes go out and the position moves past them. */
    method Write(ba: ByteArray, length: nat) returns (rt: int)
      requires ba.Valid()
      modifies socket`answers, socket`outbox, ba`cur, ba`position, ba`size
      ensures ba.Valid()
      ensures socket.answers == if socket.connected then Rest(old(socket.answers)) else old(socket.answers)
      ensures var f := old(ba.View());
              && rt == (if socket.connected then Reply(old(socket.answers), Min(length, f.size - f.position)) else -1)
              && Departed(f, old(socket.outbox), if rt > 0 then rt else 0, ba.View(), socket.outbox)
    {
      hide ByteArray.Shape, ByteArray.Mem, ByteArray.At, ByteArray.Maps, ByteArray.CursorOk;
      if !socket.connected {
        return -1;
      }
      var iovs, n := ba.GetReadBuffers(length);
      rt := SendFrom(ba, iovs, n);
      if rt > 0 {
        var ok := ba.SetPosition(ba.position + rt);
      }
    }

    method SendFrom(ba: ByteArray, iovs: seq<IoVec>, n: nat) returns (rt: int)
      requires ba.Valid() && ba.Maps(iovs, ba.position, n)
      modifies socket`answers, socket`outbox
      ensures rt == Reply(old(socket.answers), n) && socket.answers == Rest(old(socket.answers))
      ensures ba.position + n <= ba.capacity
      ensures socket.outbox == old(socket.outbox) + if rt > 0 then ba.Mem()[ba.position..ba.position + rt] else []
    {
      hide ByteArray.Shape, ByteArray.Mem, ByteArray.At, ByteArray.Where;
      ghost var sent;
      rt, sent := socket.Send(iovs);
      forall i: nat | i < rt
        ensures sent[i] == ba.Mem()[ba.position + i]
      {
        ba.MapsContent(iovs, ba.position, n, i);
      }
    }

    /** Receives `length` bytes into the buffer, however they trickle in. Whatever the outcome, the bytes taken from the
        socket are exactly the bytes now standing at the old position, in order; the result is `length` when all came. */
    method ReadFixSize(ba: ByteArray, length: nat) returns (ret: int, ghost got: nat)
      requires ba.Valid()
      modifies socket`answers, socket`inbox, ba, ba.nodes, ba.Arrays()
      ensures ba.Valid() && ba.OnlyGrows()
      ensures got == MovesIf(socket.connected, old(socket.answers), length, |old(socket.inbox)|)
      ensures socket.inbox == old(socket.inbox)[got..]
      ensures Arrived(old(ba.View()), old(socket.inbox)[..got], length, ba.View(), ba.baseSize)
      ensures got == length ==> ret == ToInt(length)
      ensures Ends(socket.connected, old(socket.answers), length, |old(socket.inbox)|, got, ret)
    {
      hide ByteArray.Valid, ByteArray.Mem, FlatReceive, Arrived, ByteArray.View, MovesIf, FailsIf, Reply, Rest, ToInt, Ends;
      var left: int := length;
      got := 0;
      ghost var f, inbox := ba.View(), socket.inbox;
      ArrivedNothing(f, inbox, length, ba.baseSize);
      while left > 0
        invariant ba.Valid() && ba.OnlyGrows()
        invariant 0 <= left && got + left == length && got <= |inbox| && socket.inbox == inbox[got..]
        invariant got + MovesIf(socket.connected, socket.answers, left, |socket.inbox|)
                  == MovesIf(socket.connected, old(socket.answers), length, |inbox|)
        invariant FailsIf(socket.connected, socket.answers, left, |socket.inbox|)
                  == FailsIf(socket.connected, old(socket.answers), length, |inbox|)
        invariant Arrived(f, inbox[..got], length, ba.View(), ba.baseSize)
        decreases left
      {
        ghost var g := ba.View();
        MovesStep(socket.connected, socket.answers, left, |socket.inbox|);
        var len := Read(ba, left);
        ArrivedMore(f, inbox, got, length, g, if len > 0 then len else 0, ba.View(), ba.baseSize);
        if len <= 0 {
          EndsSo(socket.connected, old(socket.answers), length, |inbox|, got, len);
          return len, got;
        }
        left, got := left - len, got + len;
      }
      MovesNothing(socket.connected, socket.answers, |socket.inbox|);
      ret := ToInt(length);
      EndsSo(socket.connected, old(socket.answers), length, |inbox|, got, ret);
    }

    /** Sends `length` bytes from the position on, however few the kernel takes at a time. Whatever the outcome, what has
        gone out is exactly the bytes the position has passed, once and in order. */
    method WriteFixSize(ba: ByteArray, length: nat) returns (ret: int, ghost sent: nat)
      requires ba.Valid()
      modifies socket`answers, socket`outbox, ba`cur, ba`position, ba`size
      ensures ba.Valid()
      ensures var f := old(ba.View());
              && sent == MovesIf(socket.connected, old(socket.answers), length, f.size - f.position)
              && Departed(f, old(socket.outbox), sent, ba.View(), socket.outbox)
      ensures sent == length ==> ret == ToInt(length)
      ensures var f := old(ba.View());
              Ends(socket.connected, old(socket.answers), length, f.size - f.position, sent, ret)
    {
      hide ByteArray.Valid, ByteArray.View, Departed, MovesIf, FailsIf, Reply, Rest, ToInt, Ends;
      var left: int := length;
      sent := 0;
      ghost var f, out := ba.View(), socket.outbox;
      ghost var unread: nat := f.size - f.position;
      DepartedNothing(f, out);
      while left > 0
        invariant ba.Valid() && 0 <= left && sent + left == length && sent <= unread
        invariant Departed(f, out, sent, ba.View(), socket.outbox)
        invariant sent + MovesIf(socket.connected, socket.answers, left, unread - sent)
                  == MovesIf(socket.connected, old(socket.answers), length, unread)
        invariant FailsIf(socket.connected, socket.answers, left, unread - sent)
                  == FailsIf(socket.connected, old(socket.answers), length, unread)
        decreases left
      {
        ghost var g, out' := ba.View(), socket.outbox;
        DepartedUnread(f, out, sent, g, out');
        MovesStep(socket.connected, socket.answers, left, unread - sent);
        var len := Write(ba, left);
        DepartedMore(f, out, sent, g, out', if len > 0 then len else 0, ba.View(), socket.outbox);
        if len <= 0 {
          EndsSo(socket.connected, old(socket.answers), length, unread, sent, len);
          return len, sent;
        }
        left, sent := left - len, sent + len;
      }
      MovesNothing(socket.connected, socket.answers, unread - sent);
      ret := ToInt(length);
      EndsSo(socket.connected, old(socket.answers), length, unread, sent, ret);
    }

    /** The same loops over a plain buffer. */
    method ReadFixSizeRaw(buffer: array<Byte>, length: nat) returns (ret: int, ghost got: nat)
      requires length <= buffer.Length
      modifies socket`answers, socket`inbox, buffer
      ensures got <= length && got <= |old(socket.inbox)| && socket.inbox == old(socket.inbox)[got..]
      ensures buffer[..] == Splice(old(buffer[..]), 0, old(socket.inbox)[..got])
      ensures got == length ==> ret == ToInt(length)
      ensures Ends(socket.connected, old(socket.answers), length, |old(socket.inbox)|, got, ret)
      ensures got == MovesIf(socket.connected, old(socket.answers), length, |old(socket.inbox)|)
    {
      hide Splice, MovesIf, FailsIf, Reply, Rest, ToInt, Ends;
      SpliceNothing(buffer[..], 0);
      var offset: nat, left: int := 0, length;
      while left > 0
        invariant 0 <= left && offset + left == length
        invariant offset <= |old(socket.inbox)| && socket.inbox == old(socket.inbox)[offset..]
        invariant buffer[..] == Splice(old(buffer[..]), 0, old(socket.inbox)[..offset])
        invariant offset + MovesIf(socket.connected, socket.answers, left, |socket.inbox|)
                  == MovesIf(socket.connected, old(socket.answers), length, |old(socket.inbox)|)
        invariant FailsIf(socket.connected, socket.answers, left, |socket.inbox|)
                  == FailsIf(socket.connected, old(socket.answers), length, |old(socket.inbox)|)
        decreases left
      {
        MovesStep(socket.connected, socket.answers, left, |socket.inbox|);
        var len := ReadRaw(buffer, offset, left);
        SpliceMore(old(buffer[..]), old(socket.inbox), offset, if len > 0 then len else 0);
        if len <= 0 {
          EndsSo(socket.connected, old(socket.answers), length, |old(socket.inbox)|, offset, len);
          return len, offset;
        }
        offset, left := offset + len, left - len;
      }
      MovesNothing(socket.connected, socket.answers, |socket.inbox|);
      EndsSo(socket.connected, old(socket.answers), length, |old(socket.inbox)|, offset, ToInt(length));
      return ToInt(length), offset;
    }

    method ReadRaw(buffer: array<Byte>, offset: nat, length: nat) returns (rt: int)
      requires offset + length <= buffer.Length
      modifies socket`answers, socket`inbox, buffer
      ensures rt == if socket.connected then Reply(old(socket.answers), Min(length, |old(socket.inbox)|)) else -1
      ensures socket.answers == if socket.connected then Rest(old(socket.answers)) else old(socket.answers)
      ensures var k := if rt > 0 then rt else 0;
              socket.inbox == old(socket.inbox)[k..]
              && buffer[..] == Splice(old(buffer[..]), offset, old(socket.inbox)[..k])
    {
      if !socket.connected {
        return -1;
      }
      ghost var vs := [IoVec(buffer, offset, length)];
      OneView(buffer, offset, length);
      ghost var was := map[buffer := buffer[..]];
      rt := socket.Recv([IoVec(buffer, offset, length)], was);
      OneViewFilled(buffer, offset, length, was[buffer], if rt > 0 then old(socket.inbox)[..rt] else []);
    }

    method WriteFixSizeRaw(buffer: array<Byte>, length: nat) returns (ret: int, ghost sent: nat)
      requires length <= buffer.Length
      modifies socket`answers, socket`outbox
      ensures sent <= length
      ensures socket.outbox == old(socket.outbox) + buffer[..sent]
      ensures sent == length ==> ret == ToInt(length)
      ensures Ends(socket.connected, old(socket.answers), length, length, sent, ret)
      ensures sent == MovesIf(socket.connected, old(socket.answers), length, length)
    {
      hide MovesIf, FailsIf, Reply, Rest, ToInt, Ends;
      var offset: nat, left: int := 0, length;
      while left > 0
        invariant 0 <= left && offset + left == length
        invariant offset + MovesIf(socket.connected, socket.answers, left, left)
                  == MovesIf(socket.connected, old(socket.answers), length, length)
        invariant FailsIf(socket.connected, socket.answers, left, left)
                  == FailsIf(socket.connected, old(socket.answers), length, length)
        invariant socket.outbox == old(socket.outbox) + buffer[..offset]
        decreases left
      {
        MovesStep(socket.connected, socket.answers, left, left);
        var len := WriteRaw(buffer, offset, left);
        if len <= 0 {
          EndsSo(socket.connected, old(socket.answers), length, length, offset, len);
          return len, offset;
        }
        assert buffer[..offset] + buffer[offset..offset + len] == buffer[..offset + len];
        offset, left := offset + len, left - len;
      }
      MovesNothing(socket.connected, socket.answers, 0);
      EndsSo(socket.connected, old(socket.answers), length, length, offset, ToInt(length));
      return ToInt(length), offset;
    }

    method WriteRaw(buffer: array<Byte>, offset: nat, length: nat) returns (rt: int)
      requires offset + length <= buffer.Length
      modifies socket`answers, socket`outbox
      ensures rt == if socket.connected then Reply(old(socket.answers), length) else -1
      ensures socket.answers == if socket.connected then Rest(old(socket.answers)) else old(socket.answers)
      ensures socket.outbox == old(socket.outbox) + if rt > 0 then buffer[offset..offset + rt] else []
    {
      if !socket.connected {
        return -1;
      }
      OneView(buffer, offset, length);
      ghost var sent;
      rt, sent := socket.Send([IoVec(buffer, offset, length)]);
      assert rt > 0 ==> sent == buffer[offset..offset + rt];
    }
  }

  lemma OneView(buffer: array<Byte>, offset: nat, length: nat)
    ensures Total([IoVec(buffer, offset, length)]) == length
    ensures forall i: nat | i < length :: CellOf([IoVec(buffer, offset, length)], i) == (buffer, offset + i)
  {
    var vs := [IoVec(buffer, offset, length)];
    assert vs[1..] == [] && Total(vs) == length;
  }

  lemma OneViewFilled(buffer: array<Byte>, offset: nat, length: nat, first: seq<Byte>, got: seq<Byte>)
    requires offset + length <= buffer.Length == |first| && |got| <= length
    requires FilledOver([IoVec(buffer, offset, length)], got, map[buffer := first])
    ensures buffer[..] == Splice(first, offset, got)
  {
    OneView(buffer, offset, length);
    forall j | 0 <= j < buffer.Length
      ensures buffer[j] == Splice(first, offset, got)[j]
    {
      OneViewCell(buffer, offset, length, first, got, j);
    }
  }

  lemma OneViewCell(buffer: array<Byte>, offset: nat, length: nat, first: seq<Byte>, got: seq<Byte>, j: nat)
    requires j < buffer.Length && offset + length <= buffer.Length == |first| && |got| <= length
    requires FilledOver([IoVec(buffer, offset, length)], got, map[buffer := first])
    ensures buffer[j] == if offset <= j < offset + |got| then got[j - offset] else first[j]
  {
    var vs := [IoVec(buffer, offset, length)];
    OneView(buffer, offset, length);
    if offset <= j < offset + |got| {
      assert CellOf(vs, j - offset) == (buffer, j);
    } else {
      hide FilledOver, CellOf;
      KeptCell(vs, got, map[buffer := first], (buffer, j));
    }
  }

  lemma SpliceMore(m: seq<Byte>, inbox: seq<Byte>, o: nat, k: nat)
    requires o + k <= |m| && o + k <= |inbox|
    ensures Splice(Splice(m, 0, inbox[..o]), o, inbox[o..][..k]) == Splice(m, 0, inbox[..o + k])
    ensures inbox[o..][k..] == inbox[o + k..]
  {
    assert inbox[..o] + inbox[o..][..k] == inbox[..o + k];
  }

  lemma Received(f: Flat, g: Flat, h: Flat, length: nat, bs: seq<Byte>, n: nat)
    requires n > 0 && FlatOk(f) && g == f.(mem := g.mem)
    requires |f.mem| <= |g.mem| && g.mem[..|f.mem|] == f.mem
    requires |g.mem| == GrownCapacity(|f.mem|, f.position, length, n) && f.position + length <= |g.mem|
    requires |bs| <= length && h.mem == Splice(g.mem, f.position, bs)
    requires h.position == f.position + |bs| && h.little == f.little
    requires h.size == if h.position > f.size then h.position else f.size
    ensures FlatReceive(f, bs, length, h, n)
  {
    hide GrownCapacity;
    SpliceOfGrown(f.mem, g.mem, f.position, bs);
  }
}
