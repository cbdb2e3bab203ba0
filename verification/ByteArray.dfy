/** Where a flat position lies in a chain of equal blocks, and how flat sequences are overwritten. */
module Layout {
  import opened Basics

  type Byte = b: int | 0 <= b < 256

  function Block(q: nat, n: nat): nat
    requires n > 0
  {
    q / n
  }

  function Offset(q: nat, n: nat): nat
    requires n > 0
  {
    q % n
  }

  lemma Place(q: nat, n: nat)
    requires n > 0
    ensures q == Block(q, n) * n + Offset(q, n) && Offset(q, n) < n
  {
  }

  lemma PlaceUnique(k: nat, r: nat, n: nat)
    requires r < n
    ensures Block(k * n + r, n) == k && Offset(k * n + r, n) == r
  {
    Place(k * n + r, n);
    SameBlock(Block(k * n + r, n), Offset(k * n + r, n), k, r, n);
  }

  lemma SameBlock(a: nat, b: nat, k: nat, r: nat, n: nat)
    requires a * n + b == k * n + r && b < n && r < n
    ensures a == k && b == r
  {
    if a < k {
      MulMono(a + 1, k, n);
    } else if k < a {
      MulMono(k + 1, a, n);
    }
  }

  lemma BlockBound(q: nat, m: nat, n: nat)
    requires n > 0 && q < m * n
    ensures Block(q, n) < m
  {
  }

  lemma BlockIsLast(q: nat, m: nat, n: nat)
    requires n > 0 && q == m * n
    ensures Block(q, n) == m && Offset(q, n) == 0
  {
    PlaceUnique(m, 0, n);
  }

  /** `m` with the bytes from `p` on replaced by `d`. */
  function Splice(m: seq<Byte>, p: nat, d: seq<Byte>): (r: seq<Byte>)
    requires p + |d| <= |m|
    ensures |r| == |m|
  {
    m[..p] + d + m[p + |d|..]
  }

  lemma SpliceNothing(m: seq<Byte>, p: nat)
    requires p <= |m|
    ensures Splice(m, p, []) == m
  {
  }

  /** Writing the first `n` bytes and then the rest. */
  lemma SpliceRest(m: seq<Byte>, p: nat, d: seq<Byte>, n: nat)
    requires n <= |d| && p + |d| <= |m|
    ensures Splice(Splice(m, p, d[..n]), p + n, d[n..]) == Splice(m, p, d)
  {
  }

  lemma SpliceOfGrown(before: seq<Byte>, grown: seq<Byte>, p: nat, d: seq<Byte>)
    requires p <= |before| && before <= grown && p + |d| <= |grown|
    ensures Splice(grown, p, d)[..p + |d|] == before[..p] + d
    ensures p + |d| <= |before| ==> Splice(grown, p, d)[p + |d|..|before|] == before[p + |d|..]
  {
  }

  /** Blocks to add so that `need` more bytes fit. */
  function Ceil(need: nat, n: nat): nat
    requires n > 0
  {
    (need + n - 1) / n
  }

  /** The capacity after making room for `want` bytes at `position`. */
  function GrownCapacity(capacity: nat, position: nat, want: nat, n: nat): nat
    requires n > 0 && position <= capacity
  {
    if capacity - position >= want then capacity else capacity + Ceil(want - (capacity - position), n) * n
  }

  lemma CeilTight(need: nat, n: nat)
    requires n > 0
    ensures need <= Ceil(need, n) * n < need + n
  {
  }

  lemma CeilUnique(need: nat, k: nat, n: nat)
    requires n > 0 && need <= k * n < need + n
    ensures Ceil(need, n) == k
  {
    var c := Ceil(need, n);
    CeilTight(need, n);
    if c < k {
      MulMono(c + 1, k, n);
    } else if k < c {
      MulMono(k + 1, c, n);
    }
  }

  /** Growing for one piece and then for the next comes to the same as growing for both at once. */
  lemma GrowTwice(capacity: nat, position: nat, a: nat, b: nat, n: nat)
    requires n > 0 && position <= capacity
    ensures position + a <= GrownCapacity(capacity, position, a, n)
    ensures GrownCapacity(GrownCapacity(capacity, position, a, n), position + a, b, n)
            == GrownCapacity(capacity, position, a + b, n)
  {
    hide Ceil;
    var room := capacity - position;
    if room < a {
      CeilTight(a - room, n);
      var k := Ceil(a - room, n);
      var left := k * n - (a - room);
      if b <= left {
        CeilUnique(a + b - room, k, n);
      } else {
        CeilTight(b - left, n);
        var m := Ceil(b - left, n);
        assert (k + m) * n == k * n + m * n;
        CeilUnique(a + b - room, k + m, n);
      }
    }
  }
}

/** A growable byte buffer kept as a linked list of equal blocks with a cursor node. */
module ByteBuffer {
  import opened Basics
  import opened Layout

  class Node {
    const ptr: array<Byte>
    const size: nat
    var next: Node?
    /** Not deleted yet. */
    ghost var live: bool

    constructor (s: nat)
      ensures next == null && size == s && ptr.Length == s && fresh(ptr) && live
    {
      ptr := new Byte[s];
      size := s;
      next := null;
      live := true;
    }

    /** Only a live block can be deleted, and its link cannot be relied on afterwards. */
    method Delete()
      requires live
      modifies this
      ensures !live
    {
      next, live := *, false;
    }
  }

  /** The blocks are distinct and live, and each but the last leads to the next. */
  ghost predicate Chain(ns: seq<Node>)
    reads ns
  {
    && (forall i | 0 <= i < |ns| :: ns[i].live)
    && (forall i | 0 <= i < |ns| - 1 :: ns[i].next == ns[i + 1])
    && (ns != [] ==> ns[|ns| - 1].next == null)
    && forall i, j | 0 <= i < j < |ns| :: ns[i] != ns[j]
  }

  ghost function FirstOf(ns: seq<Node>): Node? {
    if ns == [] then null else ns[0]
  }

  lemma ChainEnd(ns: seq<Node>)
    ensures FirstOf(ns) == null <==> ns == []
  {
  }

  lemma ChainTail(ns: seq<Node>)
    requires ns != [] && Chain(ns)
    ensures ns[0] == FirstOf(ns) && ns[0].live && ns[0].next == FirstOf(ns[1..])
    ensures Chain(ns[1..]) && ns[0] !in ns[1..]
    ensures forall n | n in ns :: n == ns[0] || n in ns[1..]
  {
  }

  /** The outcome of a read. With nothing to read and the cursor past the last block, the source follows a null
      cursor; that outcome is `NullCursor`. */
  datatype ReadResult = Bytes(data: seq<Byte>) | OutOfRange | NullCursor

  /** The buffer seen as one flat sequence of bytes with a position and a size. */
  datatype Flat = Flat(mem: seq<Byte>, position: nat, size: nat, little: bool)

  ghost predicate FlatOk(f: Flat) {
    f.position <= f.size <= |f.mem|
  }

  /** Overwriting `bs` at the position. With blocks of `n` bytes the sequence grows by whole blocks, as few as needed;
      bytes after the ones written stay as they were. */
  ghost predicate FlatWrite(f: Flat, bs: seq<Byte>, g: Flat, n: nat) {
    && n > 0 && FlatOk(f)
    && g.position == f.position + |bs|
    && g.size == (if g.position > f.size then g.position else f.size)
    && g.little == f.little
    && g.position <= |g.mem| == GrownCapacity(|f.mem|, f.position, |bs|, n)
    && |f.mem| <= |g.mem|
    && g.mem[..g.position] == f.mem[..f.position] + bs
    && (g.position <= |f.mem| ==> g.mem[g.position..|f.mem|] == f.mem[g.position..])
  }

  ghost predicate FlatRead(f: Flat, n: nat, r: ReadResult, g: Flat) {
    && FlatOk(f)
    && (r.OutOfRange? <==> n > f.size - f.position)
    && (r.NullCursor? <==> n == 0 && f.position == |f.mem|)
    && (r.Bytes? ==> g == f.(position := f.position + n) && r.data == f.mem[f.position..f.position + n])
    && (!r.Bytes? ==> g == f)
  }

  ghost predicate FlatSeek(f: Flat, v: nat, ok: bool, g: Flat) {
    && (ok <==> v <= |f.mem|)
    && g == if ok then f.(position := v, size := if v > f.size then v else f.size) else f
  }

  ghost predicate FlatClear(f: Flat, g: Flat, n: nat) {
    |f.mem| >= n && g == f.(mem := f.mem[..n], position := 0, size := 0)
  }

  /** Writing one piece and then another is writing both at once. */
  lemma WriteCompose(f: Flat, a: seq<Byte>, g: Flat, b: seq<Byte>, h: Flat, n: nat)
    requires FlatWrite(f, a, g, n) && FlatWrite(g, b, h, n)
    ensures FlatWrite(f, a + b, h, n)
  {
    GrowTwice(|f.mem|, f.position, |a|, |b|, n);
    hide GrownCapacity;
    assert h.mem[..g.position] == g.mem[..g.position];
    if h.position <= |f.mem| {
      SlicesAgree(h.mem, g.mem, h.position, |g.mem|);
      SlicesAgree(g.mem, f.mem, g.position, |f.mem|);
    }
  }

  lemma SliceOfSlice(m: seq<Byte>, a: nat, b: nat, c: nat, d: nat)
    requires a <= b <= |m| && c <= d <= b - a
    ensures m[a..b][c..d] == m[a + c..a + d]
  {
    forall i | 0 <= i < d - c
      ensures m[a..b][c..d][i] == m[a + c..a + d][i]
    {
    }
  }

  lemma SlicesAgree(a: seq<Byte>, b: seq<Byte>, lo: nat, hi: nat)
    requires lo <= hi <= |a| && hi <= |b| && a[lo..hi] == b[lo..hi]
    ensures forall q | lo <= q < hi :: a[q] == b[q]
  {
  }

  /** One contiguous piece of a block, as handed to the socket. */
  datatype IoVec = IoVec(base: array<Byte>, offset: nat, len: nat)

  type Cell = (array<Byte>, nat)

  predicate InBounds(vs: seq<IoVec>) {
    forall v | v in vs :: v.offset + v.len <= v.base.Length
  }

  function Total(vs: seq<IoVec>): nat {
    if vs == [] then 0 else vs[0].len + Total(vs[1..])
  }

  /** The array cell of the `i`-th byte of the views, taken in order. */
  ghost function CellOf(vs: seq<IoVec>, i: nat): (c: Cell)
    requires i < Total(vs)
    ensures c.0 in Bases(vs)
    ensures InBounds(vs) ==> c.1 < c.0.Length
  {
    if i < vs[0].len then (vs[0].base, vs[0].offset + i) else CellOf(vs[1..], i - vs[0].len)
  }

  ghost function Bases(vs: seq<IoVec>): set<array<Byte>> {
    set v | v in vs :: v.base
  }

  /** No two bytes of the views share a cell. */
  ghost predicate CellsDistinct(vs: seq<IoVec>) {
    forall i, j | 0 <= i < j < Total(vs) :: CellOf(vs, i) != CellOf(vs, j)
  }

  /** The first `|data|` bytes of the views hold `data`; every other cell is as `was` records it. */
  ghost predicate FilledOver(vs: seq<IoVec>, data: seq<Byte>, was: map<array<Byte>, seq<Byte>>)
    reads was.Keys, Bases(vs)
  {
    && InBounds(vs) && |data| <= Total(vs)
    && (forall i | 0 <= i < |data| :: CellOf(vs, i).0[CellOf(vs, i).1] == data[i])
    && (forall a | a in was :: |was[a]| == a.Length)
    && forall a, j: nat | a in was && j < a.Length && (forall i | 0 <= i < |data| :: CellOf(vs, i) != (a, j)) ::
         a[j] == was[a][j]
  }

  lemma KeptCell(vs: seq<IoVec>, data: seq<Byte>, was: map<array<Byte>, seq<Byte>>, c: Cell)
    requires FilledOver(vs, data, was) && c.0 in was && c.1 < c.0.Length
    requires forall i | 0 <= i < |data| :: CellOf(vs, i) != c
    ensures c.0[c.1] == was[c.0][c.1]
  {
  }

  lemma {:induction false} TotalSnoc(vs: seq<IoVec>, v: IoVec)
    ensures Total(vs + [v]) == Total(vs) + v.len
  {
    if vs == [] {
    } else {
      TotalSnoc(vs[1..], v);
      assert (vs + [v])[1..] == vs[1..] + [v];
    }
  }

  lemma {:induction false} CellSnoc(vs: seq<IoVec>, v: IoVec, i: nat)
    requires i < Total(vs) + v.len
    ensures i < Total(vs + [v])
    ensures CellOf(vs + [v], i) == if i < Total(vs) then CellOf(vs, i) else (v.base, v.offset + (i - Total(vs)))
  {
    TotalSnoc(vs, v);
    if vs == [] {
    } else {
      assert (vs + [v])[1..] == vs[1..] + [v];
      if i >= vs[0].len {
        CellSnoc(vs[1..], v, i - vs[0].len);
      }
    }
  }

  class ByteArray {
    const baseSize: nat
    var position: nat
    var capacity: nat
    var size: nat
    var littleEndian: bool
    var root: Node
    var cur: Node?
    ghost var nodes: seq<Node>

    ghost function Arrays(): set<array<Byte>>
      reads this`nodes
    {
      set n | n in nodes :: n.ptr
    }

    /** The chain has only been prolonged, by newly made blocks. */
    twostate predicate OnlyGrows()
      reads this`nodes
    {
      && old(nodes) <= nodes
      && forall i | |old(nodes)| <= i < |nodes| :: fresh(nodes[i]) && fresh(nodes[i].ptr)
    }

    /** The chain: `nodes` are the blocks from `root` on, all of the base size and all distinct. */
    ghost predicate Shape()
      reads this`nodes, this`root, this`capacity, nodes
    {
      && baseSize > 0
      && |nodes| > 0 && nodes[0] == root
      && capacity == |nodes| * baseSize
      && Chain(nodes)
      && (forall i | 0 <= i < |nodes| :: nodes[i].size == baseSize && nodes[i].ptr.Length == baseSize)
      && (forall i, j | 0 <= i < j < |nodes| :: nodes[i].ptr != nodes[j].ptr)
    }

    /** The cursor node is the block the position lies in, and null exactly at the end of the last block. */
    ghost predicate CursorOk()
      reads this`position, this`capacity, this`cur, this`nodes
    {
      && baseSize > 0 && position <= capacity
      && (position == capacity ==> cur == null)
      && (position < capacity ==> Block(position, baseSize) < |nodes| && cur == nodes[Block(position, baseSize)])
    }

    ghost predicate Valid()
      reads this, nodes
    {
      && Shape()
      && position <= size <= capacity
      && CursorOk()
    }

    /** The byte stored at flat position `q`. */
    ghost function At(q: nat): Byte
      reads this`nodes, this`root, this`capacity, nodes, set n | n in nodes :: n.ptr
      requires Shape() && q < capacity
    {
      BlockBound(q, |nodes|, baseSize);
      Place(q, baseSize);
      nodes[Block(q, baseSize)].ptr[Offset(q, baseSize)]
    }

    /** The first `n` bytes of the blocks. */
    ghost function Prefix(n: nat): (m: seq<Byte>)
      reads this`nodes, this`root, this`capacity, nodes, set n | n in nodes :: n.ptr
      requires Shape() && n <= capacity
      ensures |m| == n
      ensures forall q | 0 <= q < n :: m[q] == At(q)
    {
      if n == 0 then [] else Prefix(n - 1) + [At(n - 1)]
    }

    /** All blocks as one flat sequence. */
    ghost function Mem(): (m: seq<Byte>)
      reads this`nodes, this`root, this`capacity, nodes, set n | n in nodes :: n.ptr
      requires Shape()
      ensures |m| == capacity
      ensures forall q | 0 <= q < capacity :: m[q] == At(q)
    {
      Prefix(capacity)
    }

    ghost function View(): (f: Flat)
      reads this, nodes, set n | n in nodes :: n.ptr
      requires Valid()
      ensures FlatOk(f)
    {
      Flat(Mem(), position, size, littleEndian)
    }

    constructor (baseSize: nat)
      requires baseSize > 0
      ensures Valid() && fresh(root) && fresh(root.ptr) && nodes == [root]
      ensures this.baseSize == baseSize && capacity == baseSize && position == 0 && size == 0 && !littleEndian
    {
      this.baseSize := baseSize;
      position, capacity, size := 0, baseSize, 0;
      littleEndian := false;
      var n := new Node(baseSize);
      root, cur := n, n;
      nodes := [n];
      new;
      PlaceUnique(0, 0, baseSize);
    }

    function GetReadSize(): nat
      reads this
      requires position <= size
    {
      size - position
    }

    function GetCapacity(): nat
      reads this
      requires position <= capacity
    {
      capacity - position
    }

    lemma BlockOfCell(k: nat, r: nat)
      requires Shape() && k < |nodes| && r < baseSize
      ensures k * baseSize + r < capacity
      ensures At(k * baseSize + r) == nodes[k].ptr[r]
    {
      PlaceUnique(k, r, baseSize);
      MulMono(k + 1, |nodes|, baseSize);
    }

    /** Copies `src` into the cursor block. */
    method Store(ghost k: nat, npos: nat, src: seq<Byte>)
      requires Shape() && InBlock(k, npos) && npos + |src| <= baseSize
      modifies if cur == null then {} else {cur.ptr}
      ensures Shape() && position + |src| <= capacity
      ensures Mem() == Splice(old(Mem()), position, src)
    {
      ghost var before := Mem();
      forall i | 0 <= i < |src| {
        cur.ptr[npos + i] := src[i];
      }
      NextBlock(k);
      forall q | 0 <= q < capacity
        ensures Mem()[q] == Splice(before, position, src)[q]
      {
        StoredAt(k, npos, |src|, q);
      }
    }

    /** Position `q` is among the `len` bytes at offset `npos` of block `k` exactly when its own block and offset say so. */
    lemma StoredAt(k: nat, npos: nat, len: nat, q: nat)
      requires Shape() && k < |nodes| && npos + len <= baseSize && q < capacity
      ensures Block(q, baseSize) < |nodes|
      ensures var p := k * baseSize + npos;
              p <= q < p + len <==> Block(q, baseSize) == k && npos <= Offset(q, baseSize) < npos + len
      ensures var p := k * baseSize + npos;
              p <= q < p + len ==> Offset(q, baseSize) == npos + (q - p)
    {
      BlockBound(q, |nodes|, baseSize);
      Place(q, baseSize);
      var p := k * baseSize + npos;
      if p <= q < p + len {
        PlaceUnique(k, npos + (q - p), baseSize);
      }
    }

    /** Copies `len` bytes out of block `k` from offset `npos`, which is flat position `p`. */
    method Fetch(ghost k: nat, node: Node, npos: nat, len: nat, ghost p: nat) returns (r: seq<Byte>)
      requires Shape() && k < |nodes| && node == nodes[k] && npos + len <= baseSize && p == k * baseSize + npos
      ensures p + len <= capacity && r == Mem()[p..p + len]
    {
      r := node.ptr[npos..npos + len];
      NextBlock(k);
      forall i | 0 <= i < len
        ensures r[i] == Mem()[p + i]
      {
        BlockOfCell(k, npos + i);
      }
    }

    /** Walks the chain to its last block. */
    method LastNode() returns (tmp: Node)
      requires Shape()
      ensures |nodes| > 0 && tmp == nodes[|nodes| - 1]
    {
      tmp := root;
      ghost var at := 0;
      NextOf(0);
      while tmp.next != null
        invariant at < |nodes| && tmp == nodes[at]
        invariant tmp.next == null <==> at + 1 == |nodes|
        invariant tmp.next != null ==> tmp.next == nodes[at + 1]
        decreases |nodes| - at
      {
        tmp := tmp.next;
        at := at + 1;
        NextOf(at);
      }
    }

    lemma NextOf(at: nat)
      requires Shape() && at < |nodes|
      ensures nodes[at].next == null <==> at + 1 == |nodes|
      ensures at + 1 < |nodes| ==> nodes[at].next == nodes[at + 1]
    {
    }

    /** Appends `count` blocks behind the last one; `first` is the first of them. */
    method AppendBlocks(count: nat) returns (first: Node?)
      requires Shape()
      modifies this`capacity, this`nodes, nodes
      ensures Shape() && OnlyGrows() && |nodes| == |old(nodes)| + count
      ensures count > 0 ==> first == nodes[|old(nodes)|]
      ensures capacity == old(capacity) + count * baseSize
    {
      hide Shape;
      ghost var was := nodes;
      var tmp := LastNode();
      assert tmp in was;
      first := null;
      for i := 0 to count
        invariant Shape() && |nodes| == |was| + i && |was| > 0 && was <= nodes && tmp == nodes[|nodes| - 1]
        invariant first == if i == 0 then null else nodes[|was|]
        invariant forall i | |was| <= i < |nodes| :: fresh(nodes[i]) && fresh(nodes[i].ptr)
        invariant tmp in was || fresh(tmp)
        invariant capacity == old(capacity) + i * baseSize
      {
        AppendNode(tmp);
        if first == null {
          first := tmp.next;
        }
        tmp := tmp.next;
      }
    }

    /** Appends blocks until `want` bytes fit after the position. */
    method AddCapacity(want: nat)
      requires Valid()
      modifies this`capacity, this`cur, this`nodes, nodes
      ensures Valid()
      ensures OnlyGrows()
      ensures capacity == GrownCapacity(old(capacity), position, want, baseSize) && position + want <= capacity
      ensures old(capacity) <= capacity
      ensures Mem()[..old(capacity)] == old(Mem())
    {
      hide Shape, Mem, Prefix, At, Ceil;
      Extent();
      if want == 0 {
        return;
      }
      var oldCap := GetCapacity();
      if oldCap >= want {
        return;
      }
      var count := Ceil(want - oldCap, baseSize);
      CeilTight(want - oldCap, baseSize);
      ghost var was := nodes;
      var first := AppendBlocks(count);
      if oldCap == 0 {
        cur := first;
        BlockIsLast(position, |was|, baseSize);
      } else {
        BlockBound(position, |was|, baseSize);
      }
      MemGrew();
    }

    lemma Extent()
      requires Shape()
      ensures baseSize > 0 && |nodes| > 0 && capacity == |nodes| * baseSize
    {
    }

    twostate lemma MemGrew()
      requires old(Shape()) && Shape() && OnlyGrows() && old(capacity) <= capacity
      requires forall n | n in old(nodes) :: unchanged(n.ptr)
      ensures Mem()[..old(capacity)] == old(Mem())
    {
      forall q | 0 <= q < old(capacity)
        ensures Mem()[q] == old(Mem())[q]
      {
        BlockBound(q, |old(nodes)|, baseSize);
        assert At(q) == old(At(q));
      }
    }

    /** Links a new block behind the last one. */
    method AppendNode(tmp: Node)
      requires Shape() && tmp == nodes[|nodes| - 1]
      modifies this`capacity, this`nodes, tmp`next
      ensures Shape() && tmp.next != null && fresh(tmp.next) && fresh(tmp.next.ptr)
      ensures nodes == old(nodes) + [tmp.next]
      ensures capacity == old(capacity) + baseSize
    {
      var n := new Node(baseSize);
      tmp.next := n;
      nodes := nodes + [n];
      capacity := capacity + baseSize;
    }

    /** The cursor stands at offset `npos` of block `k`. */
    ghost predicate InBlock(k: nat, npos: nat)
      reads this`position, this`cur, this`nodes
    {
      k < |nodes| && cur == nodes[k] && npos < baseSize && position == k * baseSize + npos
    }

    lemma EnterBlock() returns (k: nat)
      requires Shape() && CursorOk() && position < capacity
      ensures InBlock(k, Offset(position, baseSize)) && Offset(position, baseSize) < baseSize && cur.size == baseSize
    {
      Place(position, baseSize);
      k := Block(position, baseSize);
    }

    lemma CursorInChain(k: nat, npos: nat)
      requires InBlock(k, npos)
      ensures cur != null && cur.ptr in Arrays()
    {
    }

    /** Moves `n` bytes on within the block, and to the next block when this one is used up. */
    method StepWithin(ghost k: nat, npos: nat, n: nat)
      requires Shape() && InBlock(k, npos) && npos + n <= baseSize
      modifies this`cur, this`position
      ensures position == old(position) + n && position <= capacity && CursorOk()
      ensures Shape() && Mem() == old(Mem())
    {
      hide Block, Offset, Shape, Mem, Prefix, At;
      SizeOf(k);
      NextOf(k);
      NextBlock(k);
      if cur.size == npos + n {
        cur := cur.next;
        position := position + n;
        if k + 1 < |nodes| {
          NextBlock(k + 1);
          PlaceUnique(k + 1, 0, baseSize);
        }
      } else {
        PlaceUnique(k, npos + n, baseSize);
        position := position + n;
      }
    }

    lemma NextBlock(k: nat)
      requires Shape() && k < |nodes|
      ensures (k + 1) * baseSize == k * baseSize + baseSize <= capacity
      ensures k + 1 == |nodes| <==> k * baseSize + baseSize == capacity
    {
      MulMono(k + 1, |nodes|, baseSize);
      if k + 1 < |nodes| {
        MulMono(k + 2, |nodes|, baseSize);
      }
    }

    /** Uses up the rest of the block, when more bytes follow in the next one. */
    method StepToNext(ghost k: nat, npos: nat)
      requires Shape() && InBlock(k, npos) && position + (baseSize - npos) < capacity
      modifies this`cur, this`position
      ensures position == old(position) + (baseSize - npos) && InBlock(k + 1, 0) && cur.size == baseSize
      ensures Shape() && Mem() == old(Mem())
    {
      NextOf(k);
      NextBlock(k);
      position := position + (cur.size - npos);
      cur := cur.next;
    }

    /** The copying loop of a write into blocks that are already there. */
    method CopyIn(buf: seq<Byte>)
      requires Shape() && CursorOk() && |buf| > 0 && position + |buf| <= capacity
      modifies this`cur, this`position, Arrays()
      ensures Shape() && CursorOk() && position == old(position) + |buf|
      ensures Mem() == Splice(old(Mem()), old(position), buf)
    {
      hide Shape, Mem, Prefix, At, CursorOk, Block, Offset, Splice, InBlock;
      Extent();
      ghost var start, before := position, Mem();
      var npos: nat := Offset(position, baseSize);
      ghost var k: nat := EnterBlock();
      var ncap := cur.size - npos;
      var rest := buf;
      ghost var goal := Splice(before, start, buf);
      while |rest| > 0
        invariant Shape() && position + |rest| == start + |buf|
        invariant Splice(Mem(), position, rest) == goal
        invariant |rest| > 0 ==> npos < baseSize && InBlock(k, npos) && ncap == baseSize - npos
        invariant |rest| == 0 ==> CursorOk()
        decreases |rest|
      {
        CursorInChain(k, npos);
        if ncap >= |rest| {
          Store(k, npos, rest);
          StepWithin(k, npos, |rest|);
          SpliceNothing(Mem(), position);
          rest := [];
        } else {
          SpliceRest(Mem(), position, rest, ncap);
          Store(k, npos, rest[..ncap]);
          StepToNext(k, npos);
          rest, ncap, npos, k := rest[ncap..], cur.size, 0, k + 1;
        }
      }
      SpliceNothing(Mem(), position);
    }

    lemma WroteNothing()
      requires Valid()
      ensures FlatWrite(View(), [], View(), baseSize)
    {
    }

    /** Overwrites from the position on, growing as needed, and advances the position. */
    method Write(buf: seq<Byte>)
      requires Valid()
      modifies this`capacity, this`cur, this`nodes, this`position, this`size, nodes, Arrays()
      ensures Valid() && OnlyGrows()
      ensures FlatWrite(old(View()), buf, View(), baseSize)
    {
      hide Shape, Mem, Prefix, At, CursorOk;
      Extent();
      if |buf| == 0 {
        return;
      }
      AddCapacity(|buf|);
      ghost var grown := Mem();
      CopyIn(buf);
      SpliceOfGrown(old(Mem()), grown, old(position), buf);
      if position > size {
        size := position;
      }
    }

    /** The copying loop of a read. */
    method CopyOut(n: nat) returns (r: seq<Byte>)
      requires Shape() && CursorOk() && n > 0 && position + n <= capacity
      modifies this`cur, this`position
      ensures Shape() && CursorOk() && position == old(position) + n
      ensures Mem() == old(Mem()) && r == Mem()[old(position)..position]
    {
      hide Shape, Mem, Prefix, At, CursorOk, Block, Offset, InBlock;
      Extent();
      ghost var start, mem := position, Mem();
      var npos: nat := Offset(position, baseSize);
      ghost var k: nat := EnterBlock();
      var ncap := cur.size - npos;
      var left: nat := n;
      r := [];
      while left > 0
        invariant Shape() && Mem() == mem && position + left == start + n && start <= position
        invariant r == mem[start..position]
        invariant left > 0 ==> npos < baseSize && InBlock(k, npos) && ncap == baseSize - npos
        invariant left == 0 ==> CursorOk()
      {
        CursorInChain(k, npos);
        if ncap >= left {
          r := FetchHere(k, npos, left, start, r);
          StepWithin(k, npos, left);
          left := 0;
        } else {
          r := FetchHere(k, npos, ncap, start, r);
          StepToNext(k, npos);
          left, ncap, npos, k := left - ncap, cur.size, 0, k + 1;
        }
      }
    }

    /** Adds `len` bytes from the cursor on to those read so far. */
    method FetchHere(ghost k: nat, npos: nat, len: nat, ghost start: nat, sofar: seq<Byte>) returns (r: seq<Byte>)
      requires Shape() && InBlock(k, npos) && npos + len <= baseSize
      requires start <= position <= capacity && sofar == Mem()[start..position]
      ensures position + len <= capacity && r == Mem()[start..position + len]
    {
      hide Shape, Mem;
      var piece := Fetch(k, cur, npos, len, position);
      SliceStep(Mem(), start, position, position + len);
      r := sofar + piece;
    }

    /** Takes the next `n` bytes. Asking for more than was written fails; asking for none with the cursor past the
        last block is where the source dereferences a null node. */
    method Read(n: nat) returns (r: ReadResult)
      requires Valid()
      modifies this`cur, this`position
      ensures Valid() && FlatRead(old(View()), n, r, View())
    {
      hide Shape, Mem, Prefix, At;
      if n > GetReadSize() {
        return OutOfRange;
      }
      if cur == null {
        return NullCursor;
      }
      if n == 0 {
        return Bytes([]);
      }
      var data := CopyOut(n);
      r := Bytes(data);
    }

    /** Moves the position; one past the written bytes extends them, one past the blocks fails. */
    method SetPosition(v: nat) returns (ok: bool)
      requires Valid()
      modifies this`cur, this`position, this`size
      ensures Valid() && FlatSeek(old(View()), v, ok, View())
    {
      hide Shape, Mem, Prefix, At, CursorOk;
      if v > capacity {
        return false;
      }
      position := v;
      if position > size {
        size := position;
      }
      SeekCursor();
      ok := true;
    }

    /** Walks from the root to the block the position lies in. */
    method SeekCursor()
      requires Shape() && position <= capacity
      modifies this`cur
      ensures CursorOk()
    {
      hide Shape, Block, Offset;
      Extent();
      RootFirst();
      cur := root;
      var left: nat := position;
      ghost var k: nat := 0;
      while left > cur.size
        invariant k < |nodes| && cur == nodes[k] && cur.size == baseSize && position == k * baseSize + left
        decreases left
      {
        NodeAfter(k);
        left := left - cur.size;
        cur := cur.next;
        k := k + 1;
      }
      NextBlock(k);
      NextOf(k);
      if left == cur.size {
        cur := cur.next;
        PlaceUnique(k + 1, 0, baseSize);
        if k + 1 < |nodes| {
          NextBlock(k + 1);
        }
      } else {
        PlaceUnique(k, left, baseSize);
      }
    }

    /** Drops every block but the first, and all that was written. */
    method Clear()
      requires Valid()
      modifies this`cur, this`position, this`size, this`capacity, this`nodes, root`next, nodes[1..]
      ensures forall n | n in old(nodes)[1..] :: !n.live
      ensures Valid() && nodes == [old(nodes)[0]] && FlatClear(old(View()), View(), baseSize)
    {
      hide Mem, Prefix, At, Block, Offset, Shape, Chain, FirstOf;
      FirstBlock();
      RootFirst();
      BehindRoot();
      position, size := 0, 0;
      capacity := baseSize;
      DeleteChain(nodes[1..], root.next);
      cur := root;
      root.next := null;
      nodes := [root];
      OneBlock();
      FirstBlock();
      PlaceUnique(0, 0, baseSize);
    }

    lemma BehindRoot()
      requires Shape()
      ensures Chain(nodes) && root == FirstOf(nodes)
      ensures Chain(nodes[1..]) && root.next == FirstOf(nodes[1..])
      ensures root !in nodes[1..] && root.live && root.ptr.Length == baseSize > 0
    {
    }

    lemma OneBlock()
      requires nodes == [root] && root.next == null && root.live && root.size == root.ptr.Length == baseSize == capacity > 0
      ensures Shape()
    {
    }

    /** Deletes every block; the buffer is gone. */
    method Destroy()
      requires Valid()
      modifies this`cur, nodes
      ensures forall n | n in nodes :: !n.live
    {
      BehindRoot();
      RootFirst();
      DeleteChain(nodes, root);
    }

    /** Deletes the blocks of a chain from its first on, reading each link before its block goes. */
    method DeleteChain(ghost chain: seq<Node>, first: Node?)
      requires Chain(chain) && first == FirstOf(chain)
      modifies this`cur, chain
      ensures forall n | n in chain :: !n.live
    {
      hide Chain, FirstOf;
      var tmp := first;
      ghost var rest := chain;
      ChainEnd(rest);
      while tmp != null
        invariant Chain(rest) && tmp == FirstOf(rest)
        invariant tmp == null <==> rest == []
        invariant forall n | n in rest :: n in chain
        invariant forall n | n in chain :: n in rest || !n.live
        decreases |rest|
      {
        ChainTail(rest);
        cur := tmp;
        tmp := tmp.next;
        cur.Delete();
        rest := rest[1..];
        ChainEnd(rest);
      }
    }

    lemma FirstBlock()
      requires Shape()
      ensures baseSize <= capacity && Mem()[..baseSize] == nodes[0].ptr[..]
    {
      NextBlock(0);
      forall q | 0 <= q < baseSize
        ensures Mem()[q] == nodes[0].ptr[q]
      {
        BlockOfCell(0, q);
      }
    }

    /** The written bytes from the position on; the cursor stays where it is. */
    method ToString() returns (r: seq<Byte>)
      requires Valid()
      ensures r == Mem()[position..size]
    {
      hide Shape, Mem, Prefix, At, Block, Offset, InBlock, CursorOk;
      var left: nat := GetReadSize();
      r := [];
      if left == 0 {
        return;
      }
      Extent();
      ghost var at: nat, mem := position, Mem();
      var npos: nat := Offset(position, baseSize);
      ghost var k: nat := EnterBlock();
      LocalEntry(k, npos);
      var node := cur;
      var ncap: nat := node.size - npos;
      while left > 0
        invariant position <= at <= size && at + left == size
        invariant r == mem[position..at]
        invariant left > 0 ==> k < |nodes| && node == nodes[k] && npos < baseSize
                               && at == k * baseSize + npos && ncap == baseSize - npos
      {
        if ncap >= left {
          var piece := Fetch(k, node, npos, left, at);
          SliceStep(mem, position, at, at + left);
          r, at, left := r + piece, at + left, 0;
        } else {
          var piece := Fetch(k, node, npos, ncap, at);
          SliceStep(mem, position, at, at + ncap);
          NodeAfter(k);
          r, at, left := r + piece, at + ncap, left - ncap;
          node := node.next;
          ncap, npos, k := node.size, 0, k + 1;
        }
      }
    }

    lemma HasRoot()
      requires Valid()
      ensures |nodes| > 0 && root == nodes[0]
    {
    }

    lemma RootFirst()
      requires Shape()
      ensures |nodes| > 0 && root == nodes[0] && root.size == baseSize
    {
    }

    lemma LocalEntry(k: nat, npos: nat)
      requires Shape() && InBlock(k, npos)
      ensures k < |nodes| && cur == nodes[k] && position == k * baseSize + npos && cur.size == baseSize
    {
    }

    lemma NodeAfter(k: nat)
      requires Shape() && k < |nodes| && k * baseSize + baseSize < capacity
      ensures k + 1 < |nodes| && nodes[k].next == nodes[k + 1] && nodes[k + 1].size == baseSize
      ensures (k + 1) * baseSize == k * baseSize + baseSize
    {
    }

    // ---------- scatter/gather views ----------

    /** The array cell that holds flat position `q`. */
    ghost function Where(q: nat): Cell
      reads this`nodes, this`root, this`capacity, nodes
      requires Shape() && q < capacity
    {
      BlockBound(q, |nodes|, baseSize);
      (nodes[Block(q, baseSize)].ptr, Offset(q, baseSize))
    }

    /** The views cover the `n` flat positions from `p` on, in order and nothing else. */
    ghost predicate Maps(vs: seq<IoVec>, p: nat, n: nat)
      reads this`nodes, this`root, this`capacity, nodes
    {
      && Shape() && p + n <= capacity
      && Total(vs) == n && InBounds(vs) && Bases(vs) <= Arrays()
      && forall i | 0 <= i < n :: CellOf(vs, i) == Where(p + i)
    }

    lemma MapsFacts(vs: seq<IoVec>, p: nat, n: nat)
      requires Maps(vs, p, n)
      ensures InBounds(vs) && Total(vs) == n && Bases(vs) <= Arrays() && p + n <= capacity
    {
    }

    lemma MapsSnoc(vs: seq<IoVec>, p: nat, n: nat, k: nat, npos: nat, m: nat)
      requires Maps(vs, p, n) && k < |nodes| && p + n == k * baseSize + npos && npos + m <= baseSize
      ensures Maps(vs + [IoVec(nodes[k].ptr, npos, m)], p, n + m)
    {
      hide Block, Offset;
      var v := IoVec(nodes[k].ptr, npos, m);
      NextBlock(k);
      TotalSnoc(vs, v);
      forall i | 0 <= i < n + m
        ensures CellOf(vs + [v], i) == Where(p + i)
      {
        CellSnoc(vs, v, i);
        if i >= n {
          PlaceUnique(k, npos + (i - n), baseSize);
        }
      }
    }

    lemma WhereInjective(p: nat, q: nat)
      requires Shape() && p < capacity && q < capacity && Where(p) == Where(q)
      ensures p == q
    {
      BlockBound(p, |nodes|, baseSize);
      BlockBound(q, |nodes|, baseSize);
      Place(p, baseSize);
      Place(q, baseSize);
    }

    lemma MapsDistinct(vs: seq<IoVec>, p: nat, n: nat)
      requires Maps(vs, p, n)
      ensures CellsDistinct(vs)
    {
      hide Shape, Where;
      forall i, j | 0 <= i < j < n
        ensures CellOf(vs, i) != CellOf(vs, j)
      {
        if Where(p + i) == Where(p + j) {
          WhereInjective(p + i, p + j);
        }
      }
    }

    lemma MapsContent(vs: seq<IoVec>, p: nat, n: nat, i: nat)
      requires Maps(vs, p, n) && i < n
      ensures CellOf(vs, i).1 < CellOf(vs, i).0.Length
      ensures CellOf(vs, i).0[CellOf(vs, i).1] == Mem()[p + i]
    {
    }

    /** The loop that lists the pieces of the blocks from one place on. */
    method CollectViews(node0: Node, ghost k0: nat, npos0: nat, len: nat) returns (vs: seq<IoVec>)
      requires Shape() && k0 < |nodes| && node0 == nodes[k0] && node0.size == baseSize && npos0 < baseSize
      requires k0 * baseSize + npos0 + len <= capacity
      ensures Maps(vs, k0 * baseSize + npos0, len)
    {
      hide Shape, Maps;
      ghost var p, k: nat := k0 * baseSize + npos0, k0;
      var node := node0;
      var npos: nat, left: nat := npos0, len;
      var ncap: nat := node.size - npos;
      vs := [];
      MapsNothing(p);
      while left > 0
        invariant left <= len && Maps(vs, p, len - left)
        invariant left > 0 ==> k < |nodes| && node == nodes[k] && npos < baseSize && ncap == baseSize - npos
                               && p + (len - left) == k * baseSize + npos
      {
        if ncap >= left {
          MapsSnoc(vs, p, len - left, k, npos, left);
          vs, left := vs + [IoVec(node.ptr, npos, left)], 0;
        } else {
          MapsSnoc(vs, p, len - left, k, npos, ncap);
          vs, left := vs + [IoVec(node.ptr, npos, ncap)], left - ncap;
          NodeAfter(k);
          node := node.next;
          ncap, npos, k := node.size, 0, k + 1;
        }
      }
    }

    lemma MapsNothing(p: nat)
      requires Shape() && p <= capacity
      ensures Maps([], p, 0)
    {
    }

    /** Views of the unread bytes, at most `len0` of them. */
    method GetReadBuffers(len0: nat) returns (vs: seq<IoVec>, n: nat)
      requires Valid()
      ensures n == if len0 > GetReadSize() then GetReadSize() else len0
      ensures Maps(vs, position, n)
    {
      hide Shape, Maps;
      n := if len0 > GetReadSize() then GetReadSize() else len0;
      if n == 0 {
        MapsNothing(position);
        return [], 0;
      }
      Extent();
      var npos: nat := Offset(position, baseSize);
      ghost var k: nat := EnterBlock();
      vs := CollectViews(cur, k, npos, n);
    }

    /** Views of as many bytes as are unread, but from `from` on; the caller must stay within the blocks. */
    method GetReadBuffersFrom(len0: nat, from: nat) returns (vs: seq<IoVec>, n: nat)
      requires Valid()
      requires GetReadSize() == 0 || len0 == 0 || from + (if len0 > GetReadSize() then GetReadSize() else len0) <= capacity
      ensures n == if len0 > GetReadSize() then GetReadSize() else len0
      ensures n > 0 ==> Maps(vs, from, n)
      ensures n == 0 ==> vs == []
    {
      hide Shape, Maps;
      n := if len0 > GetReadSize() then GetReadSize() else len0;
      if n == 0 {
        return [], 0;
      }
      Extent();
      Place(from, baseSize);
      BlockBound(from, |nodes|, baseSize);
      var npos: nat := Offset(from, baseSize);
      var count: nat := Block(from, baseSize);
      var node := root;
      RootFirst();
      ghost var at: nat := 0;
      while count > 0
        invariant at + count == Block(from, baseSize) && at < |nodes| && node == nodes[at] && node.size == baseSize
      {
        NextOf(at);
        SizeOf(at + 1);
        node, count, at := node.next, count - 1, at + 1;
      }
      vs := CollectViews(node, at, npos, n);
    }

    lemma SizeOf(k: nat)
      requires Shape() && k < |nodes|
      ensures nodes[k].size == baseSize
    {
    }

    /** Views of the next `len` bytes to be written, growing as needed. */
    method GetWriteBuffers(len: nat) returns (vs: seq<IoVec>)
      requires Valid()
      modifies this`capacity, this`cur, this`nodes, nodes
      ensures Valid() && OnlyGrows()
      ensures capacity == GrownCapacity(old(capacity), position, len, baseSize) && position + len <= capacity
      ensures old(capacity) <= capacity
      ensures Mem()[..old(capacity)] == old(Mem())
      ensures Maps(vs, position, len)
    {
      hide Shape, Maps, Mem, Prefix, At;
      if len == 0 {
        MapsNothing(position);
        return [];
      }
      AddCapacity(len);
      Extent();
      var npos: nat := Offset(position, baseSize);
      ghost var k: nat := EnterBlock();
      vs := CollectViews(cur, k, npos, len);
    }

    /** What the arrays held, as one flat sequence, when `was` was recorded. */
    ghost predicate Recorded(before: seq<Byte>, was: map<array<Byte>, seq<Byte>>)
      reads this`nodes, this`root, this`capacity, nodes
    {
      && Shape() && |before| == capacity
      && forall q | 0 <= q < capacity ::
           Where(q).0 in was && Where(q).1 < |was[Where(q).0]| && before[q] == was[Where(q).0][Where(q).1]
    }

    lemma RecordMem(was: map<array<Byte>, seq<Byte>>)
      requires Shape() && forall a | a in Arrays() :: a in was && was[a] == a[..]
      ensures Recorded(Mem(), was)
    {
      forall q | 0 <= q < capacity
        ensures Where(q).0 in was && Where(q).1 < |was[Where(q).0]| && Mem()[q] == was[Where(q).0][Where(q).1]
      {
        CellAt(q);
      }
    }

    /** Filling the first bytes of views overwrites exactly the flat positions they stand for. */
    lemma ScatterIsSplice(vs: seq<IoVec>, p: nat, n: nat, data: seq<Byte>, before: seq<Byte>,
                         was: map<array<Byte>, seq<Byte>>)
      requires Maps(vs, p, n) && |data| <= n && Recorded(before, was)
      requires FilledOver(vs, data, was)
      ensures |before| == capacity && Mem() == Splice(before, p, data)
    {
      forall q | 0 <= q < capacity
        ensures Mem()[q] == if p <= q < p + |data| then data[q - p] else before[q]
      {
        CellAt(q);
        if p <= q < p + |data| {
          assert CellOf(vs, q - p) == Where(q);
        } else {
          NotFilled(vs, p, n, |data|, q);
          KeptCell(vs, data, was, Where(q));
        }
      }
    }

    lemma NotFilled(vs: seq<IoVec>, p: nat, n: nat, m: nat, q: nat)
      requires Maps(vs, p, n) && m <= n && q < capacity && !(p <= q < p + m)
      ensures forall i | 0 <= i < m :: CellOf(vs, i) != Where(q)
    {
      forall i | 0 <= i < m
        ensures CellOf(vs, i) != Where(q)
      {
        if Where(p + i) == Where(q) {
          WhereInjective(p + i, q);
        }
      }
    }

    lemma CellAt(q: nat)
      requires Shape() && q < capacity
      ensures Where(q).0 in Arrays() && Where(q).1 < Where(q).0.Length
      ensures Mem()[q] == Where(q).0[Where(q).1]
    {
      hide Block, Offset, Prefix;
      BlockBound(q, |nodes|, baseSize);
      Place(q, baseSize);
      assert Mem()[q] == At(q);
      assert nodes[Block(q, baseSize)] in nodes;
    }
  }
}
