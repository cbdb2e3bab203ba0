/** Messages with a four-byte length in front, over a connection that moves bytes in pieces of any size. */
module Framing {
  import opened Basics
  import opened Words
  import opened Layout
  import opened Codec
  import opened Sockets
  import opened Transfers

  /** The largest length for which the sender's `len + 4` stays an `int`. */
  const MAX_MESSAGE: nat := 0x7fff_fffb

  /** A message as it travels: its length in network byte order, then its bytes. */
  function Frame(msg: seq<Byte>, host: bool): seq<Byte> {
    FixedBytes(Wrap(|msg|, 32), 4, false, host) + msg
  }

  // ---------- sending ----------

  /** How many of `n` bytes a sender gets out that tries again when nothing was taken and gives up on an error. */
  function Pushes(answers: seq<int>, n: nat): (k: nat)
    ensures k <= n
    decreases |answers|
  {
    if n == 0 || answers == [] || answers[0] < 0 then 0
    else var k := Min(answers[0], n); k + Pushes(answers[1..], n - k)
  }

  /** The answers it leaves. */
  function PushesRest(answers: seq<int>, n: nat): (rest: seq<int>)
    ensures |rest| <= |answers|
    decreases |answers|
  {
    if n == 0 then answers
    else if answers == [] || answers[0] < 0 then Rest(answers)
    else PushesRest(answers[1..], n - Min(answers[0], n))
  }

  lemma OnePush(answers: seq<int>, n: nat)
    requires n > 0
    ensures var rt := Reply(answers, n);
            if rt < 0 then Pushes(answers, n) == 0 && PushesRest(answers, n) == Rest(answers)
            else
              && |Rest(answers)| < |answers|
              && Pushes(answers, n) == rt + Pushes(Rest(answers), n - rt)
              && PushesRest(answers, n) == PushesRest(Rest(answers), n - rt)
  {
  }

  lemma NoPush(answers: seq<int>)
    ensures Pushes(answers, 0) == 0 && PushesRest(answers, 0) == answers
  {
  }

  /** Before any error the kernel is ready to take `n` bytes, zeros not counting. */
  ghost predicate TakesBeforeError(answers: seq<int>, n: nat) {
    exists k :: 0 <= k <= |answers| && Sum(answers[..k]) >= n && forall i | 0 <= i < k :: answers[i] >= 0
  }

  /** Everything gets out exactly when the answers before the first error add up to it. */
  lemma {:induction false} PushesAllIff(answers: seq<int>, n: nat)
    ensures Pushes(answers, n) == n <==> TakesBeforeError(answers, n)
    decreases |answers|
  {
    if n == 0 {
      assert Sum(answers[..0]) >= n;
    } else if answers == [] {
      assert forall k | 0 <= k <= |answers| :: answers[..k] == [];
    } else if answers[0] < 0 {
      assert answers[..0] == [];
    } else {
      var m := Min(answers[0], n);
      PushesAllIff(answers[1..], n - m);
      TakesOneMore(answers, n, m);
    }
  }

  lemma TakesOneMore(answers: seq<int>, n: nat, m: nat)
    requires answers != [] && answers[0] >= 0 && n > 0 && m == Min(answers[0], n)
    ensures TakesBeforeError(answers, n) <==> TakesBeforeError(answers[1..], n - m)
  {
    if TakesBeforeError(answers, n) {
      var k :| 0 <= k <= |answers| && Sum(answers[..k]) >= n && forall i | 0 <= i < k :: answers[i] >= 0;
      assert k > 0;
      assert answers[..k][1..] == answers[1..][..k - 1];
      SumNotNegative(answers[1..][..k - 1]);
      assert Sum(answers[1..][..k - 1]) >= n - m;
      assert forall i | 0 <= i < k - 1 :: answers[1..][i] >= 0;
    }
    if TakesBeforeError(answers[1..], n - m) {
      var k :| 0 <= k <= |answers[1..]| && Sum(answers[1..][..k]) >= n - m && forall i | 0 <= i < k :: answers[1..][i] >= 0;
      assert answers[..k + 1][1..] == answers[1..][..k];
      SumNotNegative(answers[1..][..k]);
      assert Sum(answers[..k + 1]) >= n;
      assert forall i | 0 < i < k + 1 :: answers[i] == answers[1..][i - 1];
    }
  }

  /** What the answers before the first error add up to. */
  function Offered(answers: seq<int>): nat {
    if answers == [] || answers[0] < 0 then 0 else answers[0] + Offered(answers[1..])
  }

  /** A sender gets out what the kernel offers to take before the first error, and no more than there is. */
  lemma {:induction false} PushesOffered(answers: seq<int>, n: nat)
    ensures Pushes(answers, n) == Min(n, Offered(answers))
    decreases |answers|
  {
    if n == 0 || answers == [] || answers[0] < 0 {
    } else {
      PushesOffered(answers[1..], n - Min(answers[0], n));
    }
  }

  lemma {:induction false} WillingPushesAll(answers: seq<int>, n: nat)
    requires Willing(answers, n)
    ensures Pushes(answers, n) == n && Willing(PushesRest(answers, n), |answers| - n)
    decreases |answers|
  {
    if n == 0 {
    } else {
      var k := Min(answers[0], n);
      WillingPushesAll(answers[1..], n - k);
    }
  }

  /** Sends `msg`, however few bytes the kernel takes at a time: exactly as much gets out as the answers allow. */
  method WriteN(link: Socket, msg: seq<Byte>) returns (ret: int, ghost sent: nat)
    modifies link`answers, link`outbox
    ensures sent == Pushes(old(link.answers), |msg|) && link.answers == PushesRest(old(link.answers), |msg|)
    ensures link.outbox == old(link.outbox) + msg[..sent]
    ensures ret == if sent == |msg| then |msg| else -1
  {
    hide Pushes, PushesRest, Reply, Rest;
    var buf := msg;
    sent := 0;
    while |buf| > 0
      invariant sent + |buf| == |msg| && buf == msg[sent..]
      invariant link.outbox == old(link.outbox) + msg[..sent]
      invariant sent + Pushes(link.answers, |buf|) == Pushes(old(link.answers), |msg|)
      invariant PushesRest(link.answers, |buf|) == PushesRest(old(link.answers), |msg|)
      decreases |link.answers|
    {
      OnePush(link.answers, |buf|);
      ghost var before := link.outbox;
      var len := link.SendBytes(buf);
      if len == -1 {
        return -1, sent;
      } else if len == 0 {
        continue;
      }
      TakeMore(msg, sent, len);
      OutMore(old(link.outbox), msg, sent, len, before, link.outbox);
      buf, sent := buf[len..], sent + len;
    }
    NoPush(link.answers);
    ret := |msg|;
  }

  lemma OutMore(out: seq<Byte>, msg: seq<Byte>, sent: nat, len: nat, before: seq<Byte>, after: seq<Byte>)
    requires sent + len <= |msg| && before == out + msg[..sent] && after == before + msg[sent..][..len]
    ensures after == out + msg[..sent + len]
  {
    assert msg[..sent] + msg[sent..][..len] == msg[..sent + len];
  }

  /** Sends one message, or as much of its frame as the answers allow; an empty message is refused. */
  method SendMsg(link: Socket, msg: seq<Byte>, host: bool) returns (ret: int)
    requires |msg| <= MAX_MESSAGE
    modifies link`answers, link`outbox
    ensures msg == [] ==> ret == -1 && link.outbox == old(link.outbox) && link.answers == old(link.answers)
    ensures msg != [] ==>
              var k := Pushes(old(link.answers), |msg| + 4);
              && link.answers == PushesRest(old(link.answers), |msg| + 4)
              && |Frame(msg, host)| == |msg| + 4 && link.outbox == old(link.outbox) + Frame(msg, host)[..k]
              && ret == if k == |msg| + 4 then |msg| + 4 else -1
  {
    FixedLength(Wrap(|msg|, 32), 4, false, host);
    if |msg| == 0 {
      return -1;
    }
    var data := Frame(msg, host);
    ghost var sent;
    ret, sent := WriteN(link, data);
  }

  // ---------- receiving ----------

  /** Receives `size` bytes: exactly as many as the answers allow, fewer when the connection ends, -1 on an error. */
  method ReadN(link: Socket, size: int) returns (ret: int, data: seq<Byte>)
    modifies link`answers, link`inbox
    ensures |data| <= |old(link.inbox)| && data == old(link.inbox)[..|data|] && link.inbox == old(link.inbox)[|data|..]
    ensures size < 0 ==> ret == size && data == [] && link.answers == old(link.answers)
    ensures size >= 0 ==>
              && |data| == Moves(old(link.answers), size, |old(link.inbox)|)
              && link.answers == MovesRest(old(link.answers), size, |old(link.inbox)|)
              && ret == if MovesFails(old(link.answers), size, |old(link.inbox)|) then -1 else |data|
    ensures size >= 0 ==>
              && |data| == Min(Min(size, |old(link.inbox)|), Ready(old(link.answers)))
              && ret == if EndsInError(old(link.answers), size, |old(link.inbox)|) then -1 else |data|
  {
    hide Moves, MovesRest, MovesFails, Reply, Rest, Ready, EndsInError;
    if size >= 0 {
      MovesReady(link.answers, size, |link.inbox|);
      FailsIff(link.answers, size, |link.inbox|);
    }
    var count := size;
    data := [];
    ghost var inbox, answers := link.inbox, link.answers;
    while count > 0
      invariant size < 0 ==> count == size && data == [] && link.answers == answers
      invariant size >= 0 ==> count >= 0 && |data| + count == size
      invariant |data| <= |inbox| && data == inbox[..|data|] && link.inbox == inbox[|data|..]
      invariant size >= 0 ==>
                  && |data| + Moves(link.answers, count, |link.inbox|) == Moves(answers, size, |inbox|)
                  && MovesRest(link.answers, count, |link.inbox|) == MovesRest(answers, size, |inbox|)
                  && MovesFails(link.answers, count, |link.inbox|) == MovesFails(answers, size, |inbox|)
      decreases count
    {
      OneMove(link.answers, count, |link.inbox|);
      var len, got := link.RecvBytes(count);
      TakeMore(inbox, |data|, |got|);
      if len == -1 {
        return -1, data;
      } else if len == 0 {
        return size - count, data;
      }
      data, count := data + got, count - len;
    }
    NoMove(link.answers, |link.inbox|);
    ret := size;
  }

  lemma TakeMore(s: seq<Byte>, a: nat, k: nat)
    requires a <= |s|
    ensures a + k <= |s| ==> s[..a] + s[a..][..k] == s[..a + k] && s[a..][k..] == s[a + k..]
  {
  }

  /** What a receive comes back with: an error (-1), nothing (0), a message, or a length below zero, which the source
      does not look at before using it. */
  datatype Received = Failed | Nothing | Message(bytes: seq<Byte>) | NegativeLength

  predicate IsMessage(msg: seq<Byte>) {
    0 < |msg| <= MAX_MESSAGE
  }

  /** The length the first four bytes announce. */
  function LengthIn(inbox: seq<Byte>, host: bool): int
    requires |inbox| >= 4
  {
    Signed(Wrap(FromFixed(inbox[..4], false, host), 32), 32)
  }

  lemma LargestMessage()
    ensures MAX_MESSAGE + 4 == 0x7fff_ffff
  {
  }

  /** A header in bytes: the high byte of the length comes first. */
  lemma HeaderBytes(msg: seq<Byte>, host: bool)
    requires |msg| <= MAX_MESSAGE
    ensures |Frame(msg, host)| == 4 + |msg|
    ensures Frame(msg, host)[..4] == [|msg| / 0x100_0000, |msg| / 0x1_0000 % 256, |msg| / 256 % 256, |msg| % 256]
  {
    var n := |msg|;
    assert Pow2(32) == 0x1_0000_0000 by { Pow32(); }
    hide Pow2, FixedBytes;
    WrapSmall(n, 32);
    FixedLength(n, 4, false, host);
    FixedIsPortable(n, 4, false, host);
    FourLittleBytes(n);
    FlipFour(n % 256, n / 256 % 256, n / 0x1_0000 % 256, n / 0x100_0000);
  }

  lemma FourLittleBytes(n: nat)
    requires n < 0x1_0000_0000
    ensures LittleBytes(n, 4) == [n % 256, n / 256 % 256, n / 0x1_0000 % 256, n / 0x100_0000]
  {
    assert LittleBytes(n, 4) == [n % 256] + LittleBytes(n / 256, 3);
    assert LittleBytes(n / 256, 3) == [n / 256 % 256] + LittleBytes(n / 256 / 256, 2);
    assert LittleBytes(n / 256 / 256, 2) == [n / 256 / 256 % 256] + LittleBytes(n / 256 / 256 / 256, 1);
    assert LittleBytes(n / 256 / 256 / 256, 1) == [n / 256 / 256 / 256 % 256] + LittleBytes(n / 256 / 256 / 256 / 256, 0);
    assert n / 256 / 256 == n / 0x1_0000 && n / 256 / 256 / 256 == n / 0x100_0000;
  }

  lemma FlipFour(a: Byte, b: Byte, c: Byte, d: Byte)
    ensures Flip([a, b, c, d]) == [d, c, b, a]
  {
    var bs := [a, b, c, d];
    FlipAt(bs, 0);
    FlipAt(bs, 1);
    FlipAt(bs, 2);
    FlipAt(bs, 3);
  }

  /** What the receiver makes of any four bytes: the first is the high one, and from 128 on the length is negative. */
  lemma LengthInBytes(inbox: seq<Byte>, host: bool)
    requires |inbox| >= 4
    ensures var n := 0x100_0000 * (inbox[0] as int) + 0x1_0000 * (inbox[1] as int) + 256 * (inbox[2] as int) + inbox[3] as int;
            LengthIn(inbox, host) == if inbox[0] < 128 then n else n - 0x1_0000_0000
  {
    var bs := inbox[..4];
    var n := 0x100_0000 * (bs[0] as int) + 0x1_0000 * (bs[1] as int) + 256 * (bs[2] as int) + bs[3] as int;
    assert Pow2(32) == 0x1_0000_0000 && Pow2(31) == 0x8000_0000 by { Pow32(); }
    hide Pow2, FromFixed;
    FromFixedIsPortable(bs, false, host);
    assert bs == [bs[0], bs[1], bs[2], bs[3]];
    FlipFour(bs[0], bs[1], bs[2], bs[3]);
    FromFour(bs[3], bs[2], bs[1], bs[0]);
    WrapSmall(n, 32);
  }

  lemma FromFour(a: Byte, b: Byte, c: Byte, d: Byte)
    ensures FromLittle([a, b, c, d]) == a + 256 * b + 0x1_0000 * c + 0x100_0000 * d
  {
    assert [a, b, c, d][1..] == [b, c, d] && [b, c, d][1..] == [c, d] && [c, d][1..] == [d] && [d][1..] == [];
    assert FromLittle([d]) == d;
    assert FromLittle([c, d]) == c + 256 * d;
    assert FromLittle([b, c, d]) == b + 256 * c + 0x1_0000 * d;
  }

  /** The receiver makes the sender's length out of the header, whatever byte order either machine uses. */
  lemma HeaderGivesLength(msg: seq<Byte>, writer: bool, reader: bool)
    requires |msg| <= MAX_MESSAGE
    ensures |Frame(msg, writer)| == 4 + |msg| && Frame(msg, writer)[4..] == msg
    ensures LengthIn(Frame(msg, writer), reader) == |msg|
  {
    assert Pow2(32) == 0x1_0000_0000 && Pow2(31) == 0x8000_0000 by { Pow32(); }
    hide Pow2, FixedBytes, FromFixed;
    WrapSmall(|msg|, 32);
    FixedLength(|msg|, 4, false, writer);
    assert Frame(msg, writer)[..4] == FixedBytes(|msg|, 4, false, writer);
    FixedRoundTrip(|msg|, 4, false, writer, reader);
  }

  /** A receiver at the beginning of a frame. */
  lemma FrameFirst(msg: seq<Byte>, writer: bool, reader: bool, inbox: seq<Byte>)
    requires |msg| <= MAX_MESSAGE && Frame(msg, writer) <= inbox
    ensures 4 + |msg| <= |inbox| && LengthIn(inbox, reader) == |msg| && inbox[4..4 + |msg|] == msg
    ensures inbox[4 + |msg|..] == inbox[|Frame(msg, writer)|..]
  {
    HeaderGivesLength(msg, writer, reader);
    hide Signed, FromFixed, Wrap, Frame;
    assert inbox[..4] == Frame(msg, writer)[..4];
    assert inbox[4..4 + |msg|] == Frame(msg, writer)[4..];
  }

  /** The outcome of one receive, what is still to arrive after it, and the answers it leaves. */
  datatype Reception = Reception(r: Received, inbox: seq<Byte>, answers: seq<int>)

  function Receive(answers: seq<int>, inbox: seq<Byte>, host: bool): Reception {
    var h := Moves(answers, 4, |inbox|);
    var rest := MovesRest(answers, 4, |inbox|);
    if h < 4 then Reception(if MovesFails(answers, 4, |inbox|) then Failed else Nothing, inbox[h..], rest)
    else
      var len := LengthIn(inbox, host);
      if len < 0 then Reception(NegativeLength, inbox[4..], rest)
      else
        var b := Moves(rest, len, |inbox| - 4);
        var rest' := MovesRest(rest, len, |inbox| - 4);
        if b < len then Reception(Nothing, inbox[4 + b..], rest')
        else Reception(Message(inbox[4..4 + len]), inbox[4 + len..], rest')
  }

  /** What that means. A receive hands over exactly a whole frame; it stops in the middle of one only when the kernel
      fails or the connection ends; and it meets a negative length exactly when it gets a header that holds one. Under a
      willing kernel the outcome depends on what is to arrive only. */
  lemma ReceiveMeaning(answers: seq<int>, inbox: seq<Byte>, host: bool)
    ensures var s := Receive(answers, inbox, host);
            && (s.r.Message? ==>
                  && 4 + |s.r.bytes| <= |inbox| && LengthIn(inbox, host) == |s.r.bytes|
                  && s.r.bytes == inbox[4..4 + |s.r.bytes|] && s.inbox == inbox[4 + |s.r.bytes|..])
            && (s.r.NegativeLength? ==> 4 <= |inbox| && LengthIn(inbox, host) < 0 && s.inbox == inbox[4..])
            && (s.r.Failed? || s.r.Nothing? ==>
                  exists k: nat :: k <= |inbox| && s.inbox == inbox[k..] && (k < 4 || k < 4 + LengthIn(inbox, host)))
    ensures Willing(answers, 4) ==>
              var s := Receive(answers, inbox, host);
              if |inbox| < 4 then s.r == Nothing
              else
                var len := LengthIn(inbox, host);
                if len < 0 then s.r == NegativeLength
                else Willing(answers, 4 + len) ==>
                  if |inbox| < 4 + len then s.r == Nothing
                  else s.r.Message? && Willing(s.answers, |answers| - (4 + len))
  {
    hide LengthIn, Moves, MovesRest, MovesFails;
    var h := Moves(answers, 4, |inbox|);
    var rest := MovesRest(answers, 4, |inbox|);
    WillingMoves(answers, 4, |inbox|);
    if h == 4 && LengthIn(inbox, host) >= 0 {
      var len := LengthIn(inbox, host);
      WillingWhole(answers, 4);
      WillingMoves(rest, len, |inbox| - 4);
    }
  }

  /** The first `k` answers bring in the four bytes of the header. */
  ghost predicate HeaderCame(answers: seq<int>, inbox: seq<Byte>, k: nat) {
    4 <= |inbox| && Spent(answers, 4, k)
  }

  /** The `len` bytes behind the header come in as well. */
  ghost predicate BodyComes(answers: seq<int>, inbox: seq<Byte>, k: nat, len: int) {
    0 <= len && 4 <= |inbox| && k <= |answers| && Completes(answers[k..], len, |inbox| - 4)
  }

  /** The four outcomes of a receive, told by the kernel's answers and the bytes that arrive: an error counts as one only in
      the header; whatever cuts the body short, an error or the end, gives nothing. */
  ghost predicate ComesBack(r: Received, answers: seq<int>, inbox: seq<Byte>, host: bool) {
    && (r.Failed? <==> EndsInError(answers, 4, |inbox|))
    && (r.NegativeLength? <==> exists k: nat :: HeaderCame(answers, inbox, k) && LengthIn(inbox, host) < 0)
    && (r.Message? <==> exists k: nat :: HeaderCame(answers, inbox, k) && BodyComes(answers, inbox, k, LengthIn(inbox, host)))
    && (r.Message? ==> r.bytes == inbox[4..4 + LengthIn(inbox, host)])
    && (r.Nothing? <==>
          || EndsInNothing(answers, 4, |inbox|)
          || exists k: nat :: HeaderCame(answers, inbox, k) && LengthIn(inbox, host) >= 0
                              && !BodyComes(answers, inbox, k, LengthIn(inbox, host)))
  }

  lemma ReceiveSpelledOut(answers: seq<int>, inbox: seq<Byte>, host: bool)
    ensures ComesBack(Receive(answers, inbox, host).r, answers, inbox, host)
  {
    hide LengthIn, Moves, MovesRest, MovesFails, EndsInError, EndsInNothing, Spent, Completes;
    var n := |inbox|;
    FailsIff(answers, 4, n);
    EndsIff(answers, 4, n);
    FailsShort(answers, 4, n);
    HeaderIff(answers, inbox);
    if Moves(answers, 4, n) == 4 {
      var k: nat :| HeaderCame(answers, inbox, k);
      CompletesWith(answers, 4, n, k);
      SpentWithin(answers, 4, k);
      OnlyHeader(answers, inbox, k);
      if LengthIn(inbox, host) >= 0 {
        CompletesIff(answers[k..], LengthIn(inbox, host), n - 4);
      }
    }
  }

  lemma HeaderIff(answers: seq<int>, inbox: seq<Byte>)
    ensures Moves(answers, 4, |inbox|) == 4 <==> exists k: nat :: HeaderCame(answers, inbox, k)
  {
    hide Spent, Moves;
    CompletesIff(answers, 4, |inbox|);
    if Completes(answers, 4, |inbox|) {
      var k: nat :| Spent(answers, 4, k);
      assert HeaderCame(answers, inbox, k);
    }
  }

  lemma SpentWithin(answers: seq<int>, n: nat, k: nat)
    requires Spent(answers, n, k)
    ensures k <= |answers|
  {
  }

  lemma OnlyHeader(answers: seq<int>, inbox: seq<Byte>, k: nat)
    requires HeaderCame(answers, inbox, k)
    ensures forall j: nat | HeaderCame(answers, inbox, j) :: j == k
  {
    hide Spent;
    forall j: nat | HeaderCame(answers, inbox, j)
      ensures j == k
    {
      SpentOnce(answers, 4, j, k);
    }
  }

  lemma WillingLess(answers: seq<int>, n: nat, m: nat)
    requires Willing(answers, n) && m <= n
    ensures Willing(answers, m) && n <= |answers|
  {
  }

  lemma WillingWhole(answers: seq<int>, n: nat)
    ensures Willing(answers, n) ==> n <= |answers|
  {
  }

  lemma WillingMoves(answers: seq<int>, n: nat, avail: nat)
    ensures Willing(answers, n) ==> Moves(answers, n, avail) == Min(n, avail) && !MovesFails(answers, n, avail)
    ensures Willing(answers, n) && n <= avail ==> Willing(MovesRest(answers, n, avail), |answers| - n)
  {
    if Willing(answers, n) {
      WillingMovesAll(answers, n, avail);
    }
  }

  /** Receives one message. */
  method ReadMsg(link: Socket, host: bool) returns (r: Received)
    modifies link`answers, link`inbox
    ensures ComesBack(r, old(link.answers), old(link.inbox), host)
    ensures Reception(r, link.inbox, link.answers) == Receive(old(link.answers), old(link.inbox), host)
  {
    hide LengthIn, Moves, MovesRest, MovesFails, ComesBack, Ready, EndsInError;
    ReceiveSpelledOut(link.answers, link.inbox, host);
    ghost var inbox := link.inbox;
    var ret4, header := ReadN(link, 4);
    if ret4 == -1 {
      FailsShort(old(link.answers), 4, |inbox|);
      return Failed;
    } else if ret4 != 4 {
      return Nothing;
    }
    SameHeader(header, inbox, host);
    var len := LengthIn(header, host);
    ghost var rest := link.answers;
    if len >= 0 {
      FailsShort(rest, len, |link.inbox|);
    }
    var ret, bytes := ReadN(link, len);
    AfterHeader(inbox, |bytes|);
    if ret != len {
      return Nothing;
    }
    if len < 0 {
      return NegativeLength;
    }
    r := Message(bytes);
  }

  /** A loop that ends with an error has not moved everything. */
  lemma {:induction false} FailsShort(answers: seq<int>, length: nat, avail: nat)
    ensures MovesFails(answers, length, avail) ==> Moves(answers, length, avail) < length
    decreases length
  {
    if length == 0 {
    } else {
      var rt := Reply(answers, Min(length, avail));
      if rt > 0 {
        FailsShort(Rest(answers), length - rt, avail - rt);
      }
    }
  }

  lemma AfterHeader(inbox: seq<Byte>, b: nat)
    requires |inbox| >= 4
    ensures 4 + b <= |inbox| ==> inbox[4..][b..] == inbox[4 + b..] && inbox[4..][..b] == inbox[4..4 + b]
  {
  }

  lemma SameHeader(header: seq<Byte>, inbox: seq<Byte>, host: bool)
    requires |header| == 4 <= |inbox| && header == inbox[..4]
    ensures LengthIn(header, host) == LengthIn(inbox, host)
  {
    assert header[..4] == inbox[..4];
  }

  /** A header of four bytes 255 announces a length of -1. */
  lemma NegativeHeader(inbox: seq<Byte>, host: bool)
    requires |inbox| >= 4 && forall i | 0 <= i < 4 :: inbox[i] == 255
    ensures LengthIn(inbox, host) == -1
  {
    hide LengthIn;
    LengthInBytes(inbox, host);
  }

  // ---------- whole conversations ----------

  function Frames(msgs: seq<seq<Byte>>, host: bool): seq<Byte> {
    if msgs == [] then [] else Frame(msgs[0], host) + Frames(msgs[1..], host)
  }

  predicate AllMessages(msgs: seq<seq<Byte>>) {
    forall i | 0 <= i < |msgs| :: IsMessage(msgs[i])
  }

  lemma {:induction false} FramesSnoc(msgs: seq<seq<Byte>>, msg: seq<Byte>, host: bool)
    ensures Frames(msgs + [msg], host) == Frames(msgs, host) + Frame(msg, host)
  {
    hide Frame;
    if msgs == [] {
      assert Frames([msg], host) == Frame(msg, host) + Frames([msg][1..], host);
    } else {
      FramesSnoc(msgs[1..], msg, host);
      assert (msgs + [msg])[1..] == msgs[1..] + [msg];
    }
  }

  /** How many bytes of the frames get out when messages are sent until one fails. */
  function Sends(answers: seq<int>, msgs: seq<seq<Byte>>): nat
    decreases |msgs|
  {
    if msgs == [] then 0
    else
      var size := |msgs[0]| + 4;
      var k := Pushes(answers, size);
      if k < size then k else k + Sends(PushesRest(answers, size), msgs[1..])
  }

  lemma {:induction false} WillingSendsAll(answers: seq<int>, msgs: seq<seq<Byte>>, host: bool)
    requires AllMessages(msgs) && Willing(answers, |Frames(msgs, host)|)
    ensures Sends(answers, msgs) == |Frames(msgs, host)|
    decreases |msgs|
  {
    if msgs == [] {
    } else {
      HeaderGivesLength(msgs[0], host, host);
      var size := |msgs[0]| + 4;
      WillingLess(answers, |Frames(msgs, host)|, size);
      WillingPushesAll(answers, size);
      var rest := PushesRest(answers, size);
      WillingLess(rest, |answers| - size, |Frames(msgs[1..], host)|);
      WillingSendsAll(rest, msgs[1..], host);
      hide Frame, Willing, Pushes, PushesRest;
    }
  }

  /** Sends a list of messages, stopping at the first that fails: what goes out is exactly the beginning of their frames
      that the answers allow. */
  method SendAll(link: Socket, msgs: seq<seq<Byte>>, host: bool) returns (ok: bool)
    requires AllMessages(msgs)
    modifies link`answers, link`outbox
    ensures var k := Sends(old(link.answers), msgs);
            && k <= |Frames(msgs, host)| && link.outbox == old(link.outbox) + Frames(msgs, host)[..k]
            && (ok <==> k == |Frames(msgs, host)|)
    ensures Willing(old(link.answers), |Frames(msgs, host)|) ==> ok
  {
    hide Frame, Frames, Sends, Willing, Pushes, PushesRest, Halfway;
    ghost var answers, out := link.answers, link.outbox;
    if Willing(answers, |Frames(msgs, host)|) {
      WillingSendsAll(answers, msgs, host);
    }
    HalfwayStart(msgs, host, answers, out);
    for i := 0 to |msgs|
      invariant Halfway(msgs, i, host, answers, out, link.answers, link.outbox)
    {
      ghost var before, sofar := link.answers, link.outbox;
      var ret := SendMsg(link, msgs[i], host);
      HalfwayStep(msgs, i, host, answers, out, before, sofar, link.answers, link.outbox);
      if ret == -1 {
        return false;
      }
    }
    HalfwayEnd(msgs, host, answers, out, link.answers, link.outbox);
    ok := true;
  }

  /** The first `i` messages have gone out whole. */
  ghost predicate Halfway(msgs: seq<seq<Byte>>, i: nat, host: bool, answers: seq<int>, out: seq<Byte>,
                          answers': seq<int>, out': seq<Byte>) {
    && i <= |msgs| && out' == out + Frames(msgs[..i], host)
    && |Frames(msgs[..i], host)| + Sends(answers', msgs[i..]) == Sends(answers, msgs)
    && Frames(msgs, host) == Frames(msgs[..i], host) + Frames(msgs[i..], host)
  }

  lemma HalfwayStart(msgs: seq<seq<Byte>>, host: bool, answers: seq<int>, out: seq<Byte>)
    ensures Halfway(msgs, 0, host, answers, out, answers, out)
  {
    FramesEnds(msgs, host);
  }

  lemma HalfwayStep(msgs: seq<seq<Byte>>, i: nat, host: bool, answers: seq<int>, out: seq<Byte>,
                    answers': seq<int>, out': seq<Byte>, answers'': seq<int>, out'': seq<Byte>)
    requires i < |msgs| && AllMessages(msgs) && Halfway(msgs, i, host, answers, out, answers', out')
    requires |Frame(msgs[i], host)| == |msgs[i]| + 4
    requires answers'' == PushesRest(answers', |msgs[i]| + 4)
    requires out'' == out' + Frame(msgs[i], host)[..Pushes(answers', |msgs[i]| + 4)]
    ensures if Pushes(answers', |msgs[i]| + 4) == |msgs[i]| + 4 then
              Halfway(msgs, i + 1, host, answers, out, answers'', out'')
            else
              && Sends(answers, msgs) < |Frames(msgs, host)|
              && out'' == out + Frames(msgs, host)[..Sends(answers, msgs)]
  {
    hide Frame, Frames, Sends, Pushes, PushesRest;
    FramesAt(msgs, i, host);
    OneSend(answers', msgs, i);
    var a, b, c := Frames(msgs[..i], host), Frame(msgs[i], host), Frames(msgs[i + 1..], host);
    var k := Pushes(answers', |msgs[i]| + 4);
    if k < |b| {
      assert Sends(answers, msgs) == |a| + k;
      CutFrames(out, out'', Frames(msgs, host), a, b, c, k);
    } else {
      WholeFrame(b);
      Assoc(out, a, b);
      assert out'' == out + Frames(msgs[..i + 1], host);
      HalfwayAgain(msgs, i + 1, host, answers, out, answers'', out'');
    }
  }

  lemma HalfwayAgain(msgs: seq<seq<Byte>>, i: nat, host: bool, answers: seq<int>, out: seq<Byte>,
                     answers': seq<int>, out': seq<Byte>)
    requires i <= |msgs| && out' == out + Frames(msgs[..i], host)
    requires |Frames(msgs[..i], host)| + Sends(answers', msgs[i..]) == Sends(answers, msgs)
    requires Frames(msgs, host) == Frames(msgs[..i], host) + Frames(msgs[i..], host)
    ensures Halfway(msgs, i, host, answers, out, answers', out')
  {
  }

  lemma HalfwayEnd(msgs: seq<seq<Byte>>, host: bool, answers: seq<int>, out: seq<Byte>,
                   answers': seq<int>, out': seq<Byte>)
    requires Halfway(msgs, |msgs|, host, answers, out, answers', out')
    ensures Sends(answers, msgs) == |Frames(msgs, host)| && out' == out + Frames(msgs, host)[..Sends(answers, msgs)]
  {
    FramesEnds(msgs, host);
    NoSends(answers', msgs);
    WholeFrame(Frames(msgs, host));
  }

  lemma WholeFrame(f: seq<Byte>)
    ensures f[..|f|] == f
  {
  }

  lemma OneSend(answers: seq<int>, msgs: seq<seq<Byte>>, i: nat)
    requires i < |msgs|
    ensures var size := |msgs[i]| + 4;
            var k := Pushes(answers, size);
            Sends(answers, msgs[i..]) == if k < size then k else k + Sends(PushesRest(answers, size), msgs[i + 1..])
  {
    assert msgs[i..][1..] == msgs[i + 1..];
  }

  lemma NoSends(answers: seq<int>, msgs: seq<seq<Byte>>)
    ensures Sends(answers, msgs[|msgs|..]) == 0
  {
  }

  lemma FramesEnds(msgs: seq<seq<Byte>>, host: bool)
    ensures msgs[..0] == [] && msgs[0..] == msgs && msgs[..|msgs|] == msgs && msgs[|msgs|..] == []
    ensures Frames([], host) == []
  {
  }

  /** The frames around the `i`-th message. */
  lemma FramesAt(msgs: seq<seq<Byte>>, i: nat, host: bool)
    requires i < |msgs| && IsMessage(msgs[i])
    ensures |Frame(msgs[i], host)| == |msgs[i]| + 4
    ensures Frames(msgs[..i + 1], host) == Frames(msgs[..i], host) + Frame(msgs[i], host)
    ensures Frames(msgs[i..], host) == Frame(msgs[i], host) + Frames(msgs[i + 1..], host)
    ensures Frames(msgs[..i], host) + Frames(msgs[i..], host) == Frames(msgs[..i + 1], host) + Frames(msgs[i + 1..], host)
  {
    HeaderGivesLength(msgs[i], host, host);
    FramesUpTo(msgs, i, host);
    FramesFrom(msgs, i, host);
    hide Frame, Frames;
    Assoc(Frames(msgs[..i], host), Frame(msgs[i], host), Frames(msgs[i + 1..], host));
  }

  lemma FramesUpTo(msgs: seq<seq<Byte>>, i: nat, host: bool)
    requires i < |msgs|
    ensures Frames(msgs[..i + 1], host) == Frames(msgs[..i], host) + Frame(msgs[i], host)
  {
    hide Frame, Frames;
    FramesSnoc(msgs[..i], msgs[i], host);
    assert msgs[..i + 1] == msgs[..i] + [msgs[i]];
  }

  lemma FramesFrom(msgs: seq<seq<Byte>>, i: nat, host: bool)
    requires i < |msgs|
    ensures Frames(msgs[i..], host) == Frame(msgs[i], host) + Frames(msgs[i + 1..], host)
  {
    hide Frame;
    assert msgs[i..][1..] == msgs[i + 1..];
  }

  lemma CutFrames(base: seq<Byte>, out: seq<Byte>, all: seq<Byte>, a: seq<Byte>, b: seq<Byte>, c: seq<Byte>, k: nat)
    requires k < |b| && all == a + (b + c) && out == base + a + b[..k]
    ensures |a| + k < |all| && out == base + all[..|a| + k]
  {
    assert all[..|a| + k] == a + b[..k];
  }

  /** What repeated receives hand over before something other than a message comes back, what is still to arrive then, and
      the answers left. */
  datatype Session = Session(got: seq<seq<Byte>>, inbox: seq<Byte>, answers: seq<int>)

  function ReceiveMany(answers: seq<int>, inbox: seq<Byte>, host: bool): Session
    decreases |inbox|
  {
    ReceiveMeaning(answers, inbox, host);
    var s := Receive(answers, inbox, host);
    if s.r.Message? then
      var t := ReceiveMany(s.answers, s.inbox, host);
      t.(got := [s.r.bytes] + t.got)
    else Session([], s.inbox, s.answers)
  }

  /** When frames are what is to arrive, what has been received is always a beginning of what was sent, unchanged and in
      order; when it is all of it nothing is left over; and it is all of it whenever the kernel keeps handing bytes over,
      in whatever pieces. */
  lemma {:induction false} FramesComeBack(answers: seq<int>, msgs: seq<seq<Byte>>, writer: bool, reader: bool)
    requires AllMessages(msgs)
    ensures var s := ReceiveMany(answers, Frames(msgs, writer), reader);
            && s.got <= msgs && (s.got == msgs ==> s.inbox == [])
            && (Willing(answers, |Frames(msgs, writer)|) ==> s.got == msgs)
    decreases |msgs|
  {
    hide LengthIn, Frame, Receive;
    var inbox := Frames(msgs, writer);
    ReceiveMeaning(answers, inbox, reader);
    if msgs == [] {
    } else {
      FrameFirst(msgs[0], writer, reader, inbox);
      HeaderGivesLength(msgs[0], writer, reader);
      var s := Receive(answers, inbox, reader);
      if s.r.Message? {
        assert s.inbox == Frames(msgs[1..], writer);
        FramesComeBack(s.answers, msgs[1..], writer, reader);
      }
    }
  }

  /** Receives until something other than a message comes back. */
  method ReceiveAll(link: Socket, host: bool) returns (got: seq<seq<Byte>>)
    modifies link`answers, link`inbox
    ensures Session(got, link.inbox, link.answers) == ReceiveMany(old(link.answers), old(link.inbox), host)
  {
    hide Receive, LengthIn;
    got := [];
    ghost var whole := ReceiveMany(link.answers, link.inbox, host);
    while true
      invariant var t := ReceiveMany(link.answers, link.inbox, host); whole == t.(got := got + t.got)
      decreases |link.inbox|
    {
      ReceiveMeaning(link.answers, link.inbox, host);
      ghost var t, before := ReceiveMany(link.answers, link.inbox, host), got;
      var r := ReadMsg(link, host);
      if !r.Message? {
        break;
      }
      got := got + [r.bytes];
      Append(before, r.bytes, ReceiveMany(link.answers, link.inbox, host).got);
    }
  }

  lemma Append<T>(a: seq<T>, x: T, b: seq<T>)
    ensures a + ([x] + b) == a + [x] + b
  {
  }

  /** End to end: a conversation over a connection that delivers what was sent. */
  method Converse(sender: Socket, receiver: Socket, msgs: seq<seq<Byte>>, writer: bool, reader: bool)
    returns (ok: bool, got: seq<seq<Byte>>)
    requires sender != receiver && AllMessages(msgs) && sender.outbox == [] && receiver.inbox == []
    modifies sender`answers, sender`outbox, receiver`answers, receiver`inbox
    ensures ok <==> Sends(old(sender.answers), msgs) == |Frames(msgs, writer)|
    ensures got == if ok then ReceiveMany(old(receiver.answers), Frames(msgs, writer), reader).got else []
    ensures Willing(old(sender.answers), |Frames(msgs, writer)|) ==> ok
    ensures ok && Willing(old(receiver.answers), |Frames(msgs, writer)|) ==> got == msgs
    ensures got <= msgs && (ok && got == msgs ==> receiver.inbox == [])
  {
    hide Frames, Sends, ReceiveMany;
    got := [];
    ok := SendAll(sender, msgs, writer);
    if ok {
      WholeFrame(Frames(msgs, writer));
      assert sender.outbox == Frames(msgs, writer);
      receiver.inbox := sender.outbox;
      FramesComeBack(receiver.answers, msgs, writer, reader);
      got := ReceiveAll(receiver, reader);
    }
  }
}
