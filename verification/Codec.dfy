/** How values are laid out as bytes: fixed-width words in either byte order, and base-128 varints. */
module Codec {
  import opened Words
  import opened Layout

  // ---------- fixed width ----------

  /** The `n` bytes of `u`, least significant first. */
  function LittleBytes(u: nat, n: nat): (bs: seq<Byte>)
    ensures |bs| == n
  {
    if n == 0 then [] else [u % 256] + LittleBytes(u / 256, n - 1)
  }

  function FromLittle(bs: seq<Byte>): nat {
    if bs == [] then 0 else bs[0] + 256 * FromLittle(bs[1..])
  }

  function Flip(bs: seq<Byte>): (r: seq<Byte>)
    ensures |r| == |bs|
  {
    if bs == [] then [] else Flip(bs[1..]) + [bs[0]]
  }

  lemma {:induction false} FlipAt(bs: seq<Byte>, i: nat)
    requires i < |bs|
    ensures Flip(bs)[i] == bs[|bs| - 1 - i]
  {
    if i == |bs| - 1 {
    } else {
      FlipAt(bs[1..], i);
    }
  }

  lemma FlipTwice(bs: seq<Byte>)
    ensures Flip(Flip(bs)) == bs
  {
    forall i | 0 <= i < |bs|
      ensures Flip(Flip(bs))[i] == bs[i]
    {
      FlipAt(Flip(bs), i);
      FlipAt(bs, |bs| - 1 - i);
    }
  }

  lemma {:induction false} FromLittleBytes(u: nat, n: nat)
    requires u < Pow2(8 * n)
    ensures FromLittle(LittleBytes(u, n)) == u
  {
    if n == 0 {
    } else {
      BytePower(n);
      FromLittleBytes(u / 256, n - 1);
      assert LittleBytes(u, n)[1..] == LittleBytes(u / 256, n - 1);
    }
  }

  lemma {:induction false} LittleFromBytes(bs: seq<Byte>)
    ensures FromLittle(bs) < Pow2(8 * |bs|)
    ensures LittleBytes(FromLittle(bs), |bs|) == bs
  {
    if bs == [] {
    } else {
      var t := FromLittle(bs[1..]);
      LittleFromBytes(bs[1..]);
      BytePower(|bs|);
      LowByte(bs[0], t);
      hide Pow2;
      assert LittleBytes(bs[0] + 256 * t, |bs|) == [bs[0]] + LittleBytes(t, |bs| - 1);
    }
  }

  lemma LowByte(b: Byte, t: nat)
    ensures (b + 256 * t) % 256 == b && (b + 256 * t) / 256 == t
  {
  }

  lemma BytePower(n: nat)
    requires n > 0
    ensures Pow2(8 * n) == 256 * Pow2(8 * (n - 1))
  {
    Pow2Add(8, 8 * (n - 1));
    assert Pow2(8) == 256;
  }

  /** How the host keeps the word `u` in memory. */
  function HostBytes(u: nat, n: nat, hostLittle: bool): seq<Byte> {
    if hostLittle then LittleBytes(u, n) else Flip(LittleBytes(u, n))
  }

  function FromHost(bs: seq<Byte>, hostLittle: bool): nat {
    FromLittle(if hostLittle then bs else Flip(bs))
  }

  /** The word with its bytes reversed. */
  function ByteSwap(u: nat, n: nat): nat {
    FromLittle(Flip(LittleBytes(u, n)))
  }

  /** What a fixed-width write puts in the buffer: the host image of the word, swapped first if the buffer's order is
      not the host's. */
  function FixedBytes(u: nat, n: nat, little: bool, hostLittle: bool): seq<Byte> {
    HostBytes(if little == hostLittle then u else ByteSwap(u, n), n, hostLittle)
  }

  /** What a fixed-width read makes of the bytes. */
  function FromFixed(bs: seq<Byte>, little: bool, hostLittle: bool): nat {
    var v := FromHost(bs, hostLittle);
    if little == hostLittle then v else ByteSwap(v, |bs|)
  }

  lemma FixedLength(u: nat, n: nat, little: bool, hostLittle: bool)
    ensures |FixedBytes(u, n, little, hostLittle)| == n
  {
  }

  /** The bytes on the wire depend on the buffer's order only, not on the machine that writes them. */
  lemma FixedIsPortable(u: nat, n: nat, little: bool, hostLittle: bool)
    ensures FixedBytes(u, n, little, hostLittle) == if little then LittleBytes(u, n) else Flip(LittleBytes(u, n))
  {
    var bs := LittleBytes(u, n);
    LittleFromBytes(Flip(bs));
    FlipTwice(bs);
  }

  lemma FromFixedIsPortable(bs: seq<Byte>, little: bool, hostLittle: bool)
    ensures FromFixed(bs, little, hostLittle) == FromLittle(if little then bs else Flip(bs))
  {
    LittleFromBytes(bs);
    LittleFromBytes(Flip(bs));
    FlipTwice(bs);
  }

  /** Reading back a fixed-width word, possibly on another machine. */
  lemma FixedRoundTrip(u: nat, n: nat, little: bool, writerLittle: bool, readerLittle: bool)
    requires u < Pow2(8 * n)
    ensures FromFixed(FixedBytes(u, n, little, writerLittle), little, readerLittle) == u
  {
    FixedIsPortable(u, n, little, writerLittle);
    FromFixedIsPortable(FixedBytes(u, n, little, writerLittle), little, readerLittle);
    FlipTwice(LittleBytes(u, n));
    FromLittleBytes(u, n);
  }

  // ---------- varints ----------

  function VarintBytes(v: nat): (bs: seq<Byte>)
    ensures |bs| > 0
  {
    if v < 128 then [v] else [v % 128 + 128] + VarintBytes(v / 128)
  }

  /** Binary digits of `v`. */
  function Bits(v: nat): nat {
    if v == 0 then 0 else 1 + Bits(v / 2)
  }

  lemma {:induction false} BitsBound(v: nat, n: nat)
    requires v < Pow2(n)
    ensures Bits(v) <= n
  {
    if v == 0 {
    } else {
      BitsBound(v / 2, n - 1);
    }
  }

  lemma BitsDrop7(v: nat)
    requires v >= 128
    ensures Bits(v) == 7 + Bits(v / 128)
  {
    BitsDrop3(v);
    BitsDrop3(v / 8);
    assert v / 8 / 8 / 2 == v / 128;
    assert Bits(v / 8 / 8) == 1 + Bits(v / 8 / 8 / 2);
  }

  lemma BitsDrop3(v: nat)
    requires v >= 8
    ensures Bits(v) == 3 + Bits(v / 8)
  {
    assert v / 2 / 2 / 2 == v / 8;
    assert Bits(v / 2) == 1 + Bits(v / 2 / 2);
    assert Bits(v / 2 / 2) == 1 + Bits(v / 2 / 2 / 2);
  }

  /** A varint takes one byte for each started group of seven bits, and one byte for zero. */
  lemma {:induction false} VarintLength(v: nat)
    ensures |VarintBytes(v)| == if v == 0 then 1 else (Bits(v) + 6) / 7
  {
    if v >= 128 {
      BitsDrop7(v);
      VarintLength(v / 128);
    } else {
      BitsBound(v, 7);
    }
  }

  /** 5 bytes hold any 32-bit word and 10 any 64-bit word. */
  lemma VarintFits(v: nat, w: nat)
    requires v < Pow2(w) && w > 0
    ensures |VarintBytes(v)| <= (w + 6) / 7
  {
    VarintLength(v);
    BitsBound(v, w);
  }

  datatype Parsed = Parsed(value: nat, used: nat) | Short

  /** The reading loop from bit `i` of a `w`-bit word on: what the bytes add to the result and how many are taken;
      `Short` when they run out first. */
  function VarintFrom(bs: seq<Byte>, i: nat, w: nat): (r: Parsed)
    ensures r.Parsed? ==> r.used <= |bs|
    decreases |bs|
  {
    if i >= w then Parsed(0, 0)
    else if bs == [] then Short
    else if bs[0] < 128 then Parsed(Wrap(bs[0] * Pow2(i), w), 1)
    else match VarintFrom(bs[1..], i + 7, w)
      case Short => Short
      case Parsed(v, n) => Parsed(Wrap((bs[0] - 128) * Pow2(i), w) + v, n + 1)
  }

  /** Whatever follows a varint, reading gives its value back and takes exactly its bytes. */
  lemma {:induction false} VarintRoundTrip(v: nat, i: nat, w: nat, rest: seq<Byte>)
    requires i < w && v * Pow2(i) < Pow2(w)
    ensures VarintFrom(VarintBytes(v) + rest, i, w) == Parsed(v * Pow2(i), |VarintBytes(v)|)
  {
    var bs := VarintBytes(v) + rest;
    if v < 128 {
      WrapSmall(v * Pow2(i), w);
    } else {
      var h, l := v / 128, v % 128;
      assert bs[1..] == VarintBytes(h) + rest;
      ShiftSplit(h, l, i);
      if w <= i + 7 {
        Pow2Mono(w, i + 7);
        MulAtLeast(h, Pow2(i + 7));
        assert false;
      }
      WrapSmall(l * Pow2(i), w);
      VarintRoundTrip(h, i + 7, w, rest);
    }
  }

  lemma ShiftSplit(h: nat, l: nat, i: nat)
    ensures (128 * h + l) * Pow2(i) == h * Pow2(i + 7) + l * Pow2(i)
    ensures h * Pow2(i + 7) >= 0 && l * Pow2(i) >= 0
  {
    Pow2Add(7, i);
    assert Pow2(7) == 128;
    var p := Pow2(i);
    assert h * (128 * p) == 128 * h * p;
  }

  lemma MulAtLeast(h: nat, p: nat)
    requires h > 0
    ensures h * p >= p
  {
  }

  /** Varints are prefix-free: two of them that agree as far as the shorter goes are the same. */
  lemma VarintPrefixFree(a: nat, b: nat, w: nat)
    requires 0 < w && a < Pow2(w) && b < Pow2(w)
    requires VarintBytes(a) <= VarintBytes(b)
    ensures a == b
  {
    var rest := VarintBytes(b)[|VarintBytes(a)|..];
    assert VarintBytes(a) + rest == VarintBytes(b) + [];
    assert a * Pow2(0) == a && b * Pow2(0) == b;
    VarintRoundTrip(a, 0, w, rest);
    VarintRoundTrip(b, 0, w, []);
  }

  /** Shifting left by `i` in a `w`-bit word keeps the low `w - i` bits and leaves the low `i` bits clear. */
  lemma WrapShift(x: nat, i: nat, w: nat)
    requires i <= w
    ensures Wrap(x * Pow2(i), w) == Wrap(x, w - i) * Pow2(i)
  {
    var p, q := Pow2(i), Pow2(w - i);
    Pow2Add(w - i, i);
    hide Pow2;
    ModScale(x, q, p);
  }

  lemma ModScale(x: nat, q: nat, p: nat)
    requires p > 0 && q > 0
    ensures q * p > 0 && (x * p) % (q * p) == (x % q) * p
  {
    var d, r := x / q, x % q;
    assert x == d * q + r;
    ScaledRest(d, q, r, p);
  }

  lemma ScaledRest(d: nat, q: nat, r: nat, p: nat)
    requires r < q && p > 0
    ensures q * p > 0 && ((d * q + r) * p) % (q * p) == r * p
  {
    Distribute(d, q, r, p);
    StrictScale(r, q, p);
    var m, k := q * p, r * p;
    assert (d * q + r) * p == d * m + k;
    ModUnique(d, k, m);
  }

  lemma Distribute(d: nat, q: nat, r: nat, p: nat)
    ensures (d * q + r) * p == d * (q * p) + r * p
  {
  }

  lemma StrictScale(r: nat, q: nat, p: nat)
    requires r < q && p > 0
    ensures r * p < q * p && q * p > 0
  {
  }

  lemma ModUnique(d: nat, r: nat, m: nat)
    requires r < m
    ensures (d * m + r) % m == r
  {
    PlaceUnique(d, r, m);
  }

  /** What a reading loop adds from bit `i` on has its low `i` bits clear and stays within the word. */
  lemma {:induction false} VarintBound(bs: seq<Byte>, i: nat, w: nat) returns (m: nat)
    requires i <= w && VarintFrom(bs, i, w).Parsed?
    ensures m < Pow2(w - i) && VarintFrom(bs, i, w).value == m * Pow2(i)
    decreases |bs|
  {
    if i == w {
      m := 0;
    } else {
      var x := if bs[0] < 128 then bs[0] else bs[0] - 128;
      WrapShift(x, i, w);
      m := Wrap(x, w - i);
      if bs[0] >= 128 {
        if w <= i + 7 {
          assert VarintFrom(bs[1..], i + 7, w) == Parsed(0, 0);
        } else {
          var k := VarintBound(bs[1..], i + 7, w);
          ShiftSplit(k, x, i);
          m := HighPart(k, x, w - i);
        }
      }
    }
  }

  lemma HighPart(k: nat, x: nat, n: nat) returns (m: nat)
    requires n > 7 && k < Pow2(n - 7) && x < 128
    ensures m == 128 * k + x && m < Pow2(n) && Wrap(x, n) == x
  {
    m := 128 * k + x;
    Pow2Add(7, n - 7);
    assert Pow2(7) == 128;
    WrapSmall(x, n);
  }

  /** The word read is a word: whatever the bytes, it fits in `w` bits. */
  lemma VarintInRange(bs: seq<Byte>, w: nat)
    requires VarintFrom(bs, 0, w).Parsed?
    ensures VarintFrom(bs, 0, w).value < Pow2(w)
  {
    var m := VarintBound(bs, 0, w);
    assert m * Pow2(0) == m;
  }
}
