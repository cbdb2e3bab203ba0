/** Whole runs of the buffer: any sequence of calls behaves as the same calls on one flat sequence of bytes. */
module BufferRuns {
  import opened Layout
  import opened ByteBuffer

  datatype Op = WriteOp(bs: seq<Byte>) | ReadOp(n: nat) | SeekOp(v: nat) | ClearOp

  datatype Reply = Done | Got(r: ReadResult) | Moved(ok: bool)

  /** One call on the flat sequence. Only the bytes that growing adds are left open. */
  ghost predicate FlatStep(f: Flat, op: Op, reply: Reply, g: Flat, n: nat) {
    match op
    case WriteOp(bs) => reply == Done && FlatWrite(f, bs, g, n)
    case ReadOp(k) => reply.Got? && FlatRead(f, k, reply.r, g)
    case SeekOp(v) => reply.Moved? && FlatSeek(f, v, reply.ok, g)
    case ClearOp => reply == Done && FlatClear(f, g, n)
  }

  ghost predicate FlatRun(trace: seq<Flat>, ops: seq<Op>, replies: seq<Reply>, n: nat) {
    && |trace| == |ops| + 1 && |replies| == |ops|
    && forall i | 0 <= i < |ops| :: FlatStep(trace[i], ops[i], replies[i], trace[i + 1], n)
  }

  method Perform(ba: ByteArray, op: Op) returns (reply: Reply)
    requires ba.Valid()
    modifies ba, ba.nodes, ba.Arrays()
    ensures ba.Valid() && FlatStep(old(ba.View()), op, reply, ba.View(), ba.baseSize)
    ensures forall i | 0 <= i < |ba.nodes| :: ba.nodes[i] in old(ba.nodes) || (fresh(ba.nodes[i]) && fresh(ba.nodes[i].ptr))
  {
    hide ByteArray.Valid, ByteArray.View, FlatWrite, FlatRead, FlatSeek, FlatClear;
    match op
    case WriteOp(bs) =>
      ba.Write(bs);
      reply := Done;
    case ReadOp(k) =>
      var r := ba.Read(k);
      reply := Got(r);
    case SeekOp(v) =>
      var ok := ba.SetPosition(v);
      reply := Moved(ok);
    case ClearOp =>
      ba.HasRoot();
      ba.Clear();
      reply := Done;
  }

  /** Refinement over whole runs. */
  method Run(ba: ByteArray, ops: seq<Op>) returns (replies: seq<Reply>, ghost trace: seq<Flat>)
    requires ba.Valid()
    modifies ba, ba.nodes, ba.Arrays()
    ensures ba.Valid() && FlatRun(trace, ops, replies, ba.baseSize)
    ensures trace[0] == old(ba.View()) && trace[|ops|] == ba.View()
  {
    hide ByteArray.Valid, ByteArray.View, FlatStep;
    replies, trace := [], [ba.View()];
    for i := 0 to |ops|
      invariant ba.Valid() && FlatRun(trace, ops[..i], replies, ba.baseSize)
      invariant trace[0] == old(ba.View()) && trace[i] == ba.View()
      invariant forall i | 0 <= i < |ba.nodes| ::
                  ba.nodes[i] in old(ba.nodes) || (fresh(ba.nodes[i]) && fresh(ba.nodes[i].ptr))
      invariant forall a | a in ba.Arrays() :: a in old(ba.Arrays()) || fresh(a)
    {
      var reply := Perform(ba, ops[i]);
      replies, trace := replies + [reply], trace + [ba.View()];
      assert ops[..i + 1] == ops[..i] + [ops[i]];
    }
    assert ops[..|ops|] == ops;
  }

  /** In every state of a run the position is within the written bytes, they are within the blocks, and the blocks are
      whole: the capacity stays a multiple of the block size. */
  lemma {:induction false} RunKeepsShape(trace: seq<Flat>, ops: seq<Op>, replies: seq<Reply>, n: nat, k: nat)
    requires n > 0 && FlatRun(trace, ops, replies, n) && k < |trace|
    requires FlatOk(trace[0]) && |trace[0].mem| % n == 0
    ensures FlatOk(trace[k]) && |trace[k].mem| % n == 0
  {
    if k == 0 {
    } else {
      RunKeepsShape(trace, ops, replies, n, k - 1);
      StepKeepsShape(trace[k - 1], ops[k - 1], replies[k - 1], trace[k], n);
    }
  }

  lemma StepKeepsShape(f: Flat, op: Op, reply: Reply, g: Flat, n: nat)
    requires n > 0 && FlatOk(f) && |f.mem| % n == 0 && FlatStep(f, op, reply, g, n)
    ensures FlatOk(g) && |g.mem| % n == 0
  {
    match op
    case WriteOp(bs) => GrownIsWhole(|f.mem|, f.position, |bs|, n);
    case ReadOp(k) =>
    case SeekOp(v) =>
    case ClearOp =>
      PlaceUnique(1, 0, n);
  }

  lemma GrownIsWhole(capacity: nat, position: nat, want: nat, n: nat)
    requires n > 0 && position <= capacity && capacity % n == 0
    ensures GrownCapacity(capacity, position, want, n) % n == 0
  {
    var c := GrownCapacity(capacity, position, want, n);
    if c != capacity {
      Place(capacity, n);
      var k := Ceil(want - (capacity - position), n);
      assert c == (Block(capacity, n) + k) * n;
      PlaceUnique(Block(capacity, n) + k, 0, n);
    }
  }

  /** Until the next clear the size is the farthest position ever reached, and no block is there that none of them needed. */
  lemma {:induction false} SizeIsFarthest(trace: seq<Flat>, ops: seq<Op>, replies: seq<Reply>, n: nat, k: nat)
    requires n > 0 && FlatRun(trace, ops, replies, n) && k < |trace| && FlatOk(trace[0])
    requires forall i | 0 <= i < k :: !ops[i].ClearOp?
    ensures FlatOk(trace[k])
    ensures forall j | 0 <= j <= k :: trace[j].position <= trace[k].size
    ensures trace[0].size <= trace[k].size
    ensures trace[k].size == trace[0].size || exists j :: 0 < j <= k && trace[j].position == trace[k].size
    ensures |trace[0].mem| <= |trace[k].mem|
    ensures |trace[k].mem| == |trace[0].mem| || exists j :: 0 < j <= k && trace[j].position > |trace[k].mem| - n
  {
    hide FlatStep;
    if k > 0 {
      SizeIsFarthest(trace, ops, replies, n, k - 1);
      StepFarthest(trace[k - 1], ops[k - 1], replies[k - 1], trace[k], n);
      if trace[k].size == trace[k - 1].size != trace[0].size {
        var j :| 0 < j <= k - 1 && trace[j].position == trace[k - 1].size;
        assert trace[j].position == trace[k].size;
      }
      if |trace[k].mem| == |trace[k - 1].mem| != |trace[0].mem| {
        var j :| 0 < j <= k - 1 && trace[j].position > |trace[k - 1].mem| - n;
        assert trace[j].position > |trace[k].mem| - n;
      }
    }
  }

  lemma StepFarthest(f: Flat, op: Op, reply: Reply, g: Flat, n: nat)
    requires n > 0 && FlatOk(f) && FlatStep(f, op, reply, g, n) && !op.ClearOp?
    ensures FlatOk(g) && f.size <= g.size && (g.size == f.size || g.size == g.position)
    ensures |f.mem| <= |g.mem| && (|g.mem| == |f.mem| || g.position > |g.mem| - n)
  {
    hide Ceil;
    if op.WriteOp? && |f.mem| - f.position < |op.bs| {
      CeilTight(|op.bs| - (|f.mem| - f.position), n);
    }
  }

  /** The call writes nothing at `q` and does not drop the block it lies in. */
  predicate Spares(f: Flat, op: Op, q: nat, n: nat) {
    match op
    case WriteOp(bs) => !(f.position <= q < f.position + |bs|)
    case ClearOp => q < n
    case _ => true
  }

  lemma StepSpares(f: Flat, op: Op, reply: Reply, g: Flat, q: nat, n: nat)
    requires FlatStep(f, op, reply, g, n) && Spares(f, op, q, n) && q < |f.mem|
    ensures q < |g.mem| && g.mem[q] == f.mem[q]
  {
    hide GrownCapacity;
    if op.WriteOp? {
      if q < f.position {
        assert g.mem[..g.position][q] == (f.mem[..f.position] + op.bs)[q];
      } else {
        SlicesAgree(g.mem, f.mem, g.position, |f.mem|);
      }
    }
  }

  /** A byte changes only when a write passes over it, whatever is written before, behind or around it. */
  lemma {:induction false} UntouchedByte(trace: seq<Flat>, ops: seq<Op>, replies: seq<Reply>, n: nat, q: nat)
    requires FlatRun(trace, ops, replies, n) && q < |trace[0].mem|
    requires forall i | 0 <= i < |ops| :: Spares(trace[i], ops[i], q, n)
    ensures q < |trace[|ops|].mem| && trace[|ops|].mem[q] == trace[0].mem[q]
    decreases |ops|
  {
    hide FlatStep, Spares;
    if ops == [] {
    } else {
      var k := |ops| - 1;
      UntouchedByte(trace[..k + 1], ops[..k], replies[..k], n, q);
      StepSpares(trace[k], ops[k], replies[k], trace[k + 1], q, n);
    }
  }

  /** The last write to pass over a byte decides it. */
  lemma LastWriteDecides(trace: seq<Flat>, ops: seq<Op>, replies: seq<Reply>, n: nat, k: nat, q: nat)
    requires FlatRun(trace, ops, replies, n) && k < |ops| && ops[k].WriteOp?
    requires trace[k].position <= q < trace[k].position + |ops[k].bs|
    requires forall i | k < i < |ops| :: Spares(trace[i], ops[i], q, n)
    ensures q < |trace[|ops|].mem| && trace[|ops|].mem[q] == ops[k].bs[q - trace[k].position]
  {
    var f, g := trace[k], trace[k + 1];
    assert FlatStep(f, ops[k], replies[k], g, n);
    assert g.mem[..g.position][q] == (f.mem[..f.position] + ops[k].bs)[q];
    hide FlatStep, Spares;
    UntouchedByte(trace[k + 1..], ops[k + 1..], replies[k + 1..], n, q);
  }

  /** What is written is what is read: write, go back, read. */
  lemma ReadBackWrite(f: Flat, bs: seq<Byte>, g: Flat, h: Flat, r: ReadResult, k: Flat, n: nat, ok: bool)
    requires FlatWrite(f, bs, g, n) && FlatSeek(g, f.position, ok, h) && FlatRead(h, |bs|, r, k)
    ensures ok && k.position == (if r.Bytes? then g.position else f.position)
    ensures r == if bs == [] && f.position == |g.mem| then NullCursor else Bytes(bs)
  {
  }
}
