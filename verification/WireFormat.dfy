/** What the encodings look like, byte by byte, and what a reader makes of any bytes at all. */
module WireFormat {
  import opened Words
  import opened Layout
  import opened Codec
  import opened Records
  import Zigzag

  // ---------- fixed width ----------

  lemma DivTwice(u: nat, a: nat, b: nat)
    requires a > 0 && b > 0
    ensures a * b > 0 && u / a / b == u / (a * b)
  {
    var x, r := u / a, u % a;
    var y, s := x / b, x % b;
    Place(u, a);
    Place(x, b);
    Regroup(y, b, s, a, r);
    PlaceUnique(y, a * s + r, a * b);
  }

  lemma Regroup(y: nat, b: nat, s: nat, a: nat, r: nat)
    requires r < a && s < b
    ensures (y * b + s) * a + r == y * (a * b) + (a * s + r)
    ensures a * s + r < a * b
  {
    StrictScale(s, b, a);
    Rows(a, s, b, r);
    Distribute(y, b, s, a);
  }

  lemma Rows(a: nat, s: nat, b: nat, r: nat)
    requires s < b && r < a
    ensures a * s + r < a * b
  {
    MulUp(a, s + 1, b);
  }

  lemma MulUp(a: nat, s: nat, b: nat)
    requires s <= b
    ensures a * s <= a * b
  {
  }

  lemma PowerSum(a: nat, b: nat)
    ensures Pow2(a) > 0 && Pow2(b) > 0 && Pow2(a + b) == Pow2(a) * Pow2(b)
  {
    Pow2Add(a, b);
  }

  /** The `k`-th digit of `u` to base 256. */
  ghost function Digit(u: nat, k: nat): nat {
    PowerSum(8 * k, 0);
    u / Pow2(8 * k) % 256
  }

  /** Byte `i` from the low end is the `i`-th digit to base 256. */
  lemma {:induction false} LittleByteAt(u: nat, n: nat, i: nat)
    requires i < n
    ensures LittleBytes(u, n)[i] == Digit(u, i)
    decreases i
  {
    if i == 0 {
      assert Pow2(0) == 1;
    } else {
      LittleByteAt(u / 256, n - 1, i - 1);
      PowerSum(8, 8 * (i - 1));
      assert Pow2(8) == 256;
      hide Pow2;
      DivTwice(u, 256, Pow2(8 * (i - 1)));
      assert LittleBytes(u, n)[i] == LittleBytes(u / 256, n - 1)[i - 1];
    }
  }

  /** The bytes of a word in the buffer: its digits to base 256, low end first or high end first as the buffer's order
      says, whatever machine writes it. */
  lemma FixedByteAt(u: nat, n: nat, little: bool, host: bool, i: nat)
    requires i < n
    ensures FixedBytes(u, n, little, host)[i] == Digit(u, if little then i else n - 1 - i)
  {
    hide Digit, FixedBytes, LittleBytes, Flip;
    FixedIsPortable(u, n, little, host);
    FlipAt(LittleBytes(u, n), i);
    LittleByteAt(u, n, if little then i else n - 1 - i);
  }

  // ---------- varints ----------

  /** Group `i` of a varint holds bits 7 * i to 7 * i + 6, and is marked when another follows. */
  lemma {:induction false} VarintByteAt(v: nat, i: nat)
    requires i < |VarintBytes(v)|
    ensures Pow2(7 * i) > 0
    ensures VarintBytes(v)[i] == v / Pow2(7 * i) % 128 + if i + 1 < |VarintBytes(v)| then 128 else 0
    decreases i
  {
    if i == 0 {
      assert Pow2(0) == 1;
    } else {
      VarintByteAt(v / 128, i - 1);
      PowerSum(7, 7 * (i - 1));
      assert Pow2(7) == 128;
      hide Pow2;
      DivTwice(v, 128, Pow2(7 * (i - 1)));
      assert VarintBytes(v) == [v % 128 + 128] + VarintBytes(v / 128);
    }
  }

  /** The low seven bits of each byte, the first the lowest. */
  function Groups(bs: seq<Byte>): nat {
    if bs == [] then 0 else bs[0] % 128 + 128 * Groups(bs[1..])
  }

  /** The reading loop from bit `i` on takes `n` bytes: it stops behind the first unmarked one, or when the word is full. */
  ghost predicate Stops(bs: seq<Byte>, i: nat, w: nat, n: nat) {
    && n <= |bs| && (n == 0 ==> i >= w)
    && (n > 0 ==> i + 7 * (n - 1) < w && (bs[n - 1] < 128 || i + 7 * n >= w))
    && forall k | 0 <= k < n - 1 :: bs[k] >= 128
  }

  lemma {:induction false} VarintTakes(bs: seq<Byte>, i: nat, w: nat)
    ensures match VarintFrom(bs, i, w)
            case Short => i + 7 * |bs| < w && forall k | 0 <= k < |bs| :: bs[k] >= 128
            case Parsed(_, n) => Stops(bs, i, w, n)
    decreases |bs|
  {
    if i < w && bs != [] && bs[0] >= 128 {
      VarintTakes(bs[1..], i + 7, w);
      assert forall k | 0 < k < |bs| :: bs[k] == bs[1..][k - 1];
    }
  }

  lemma ModAdd(a: nat, b: nat, c: nat, m: nat)
    requires m > 0 && b % m == c % m
    ensures (a % m + b) % m == (a + c) % m
  {
    var q, p, r := a / m, b / m, c / m;
    Place(a, m);
    Place(b, m);
    Place(c, m);
    var s := a % m + b % m;
    Gather(a % m, p, b % m, m);
    Gather2(q, a % m, r, c % m, m);
    DropMultiple(p, s, m);
    DropMultiple(q + r, s, m);
  }

  lemma Gather(x: nat, p: nat, y: nat, m: nat)
    ensures x + (p * m + y) == p * m + (x + y)
  {
  }

  lemma Gather2(q: nat, x: nat, r: nat, y: nat, m: nat)
    ensures (q * m + x) + (r * m + y) == (q + r) * m + (x + y)
  {
  }

  lemma {:induction false} DropMultiple(k: nat, s: nat, m: nat)
    requires m > 0
    ensures (k * m + s) % m == s % m
  {
    Place(s, m);
    var d := s / m;
    assert k * m + d * m == (k + d) * m;
    ModUnique(k + d, s % m, m);
  }

  lemma {:induction false} VarintAdds(bs: seq<Byte>, i: nat, w: nat)
    requires VarintFrom(bs, i, w).Parsed?
    ensures Pow2(w) > 0
    ensures var (v, n) := (VarintFrom(bs, i, w).value, VarintFrom(bs, i, w).used);
            v % Pow2(w) == Groups(bs[..n]) * Pow2(i) % Pow2(w)
    decreases |bs|
  {
    var m := Pow2(w);
    PowerSum(w, 0);
    if i >= w {
      assert bs[..0] == [];
    } else if bs[0] < 128 {
      assert bs[..1][1..] == [] && Groups(bs[..1]) == bs[0];
      ModTwice(bs[0] * Pow2(i), m);
    } else {
      VarintAdds(bs[1..], i + 7, w);
      var (v, n) := (VarintFrom(bs[1..], i + 7, w).value, VarintFrom(bs[1..], i + 7, w).used);
      var g := Groups(bs[1..][..n]);
      assert bs[..n + 1][1..] == bs[1..][..n];
      assert Groups(bs[..n + 1]) == bs[0] % 128 + 128 * g;
      ShiftSplit(g, bs[0] % 128, i);
      hide Pow2;
      ModAdd((bs[0] - 128) * Pow2(i), v, g * Pow2(i + 7), m);
    }
  }

  lemma ModTwice(a: nat, m: nat)
    requires m > 0
    ensures a % m % m == a % m
  {
  }

  /** What the reading loop makes of any bytes: it runs short exactly when all of them are marked and do not fill the word,
      and otherwise takes the low seven bits of each byte up to where it stops, cut to the word's width. */
  lemma VarintMeans(bs: seq<Byte>, w: nat)
    requires w > 0
    ensures VarintFrom(bs, 0, w).Short? <==> 7 * |bs| < w && forall k | 0 <= k < |bs| :: bs[k] >= 128
    ensures forall n: nat | Stops(bs, 0, w, n) ::
              VarintFrom(bs, 0, w) == Parsed(Wrap(Groups(bs[..n]), w), n)
  {
    VarintTakes(bs, 0, w);
    if VarintFrom(bs, 0, w).Parsed? {
      var (v, n) := (VarintFrom(bs, 0, w).value, VarintFrom(bs, 0, w).used);
      VarintAdds(bs, 0, w);
      VarintInRange(bs, w);
      ModSmall(v, Pow2(w));
      assert Pow2(0) == 1;
      StopsOnce(bs, w, n);
    } else {
      StopsNever(bs, w);
    }
  }

  lemma StopsOnce(bs: seq<Byte>, w: nat, n: nat)
    requires Stops(bs, 0, w, n) && w > 0
    ensures forall j: nat | Stops(bs, 0, w, j) :: j == n
    ensures !(7 * |bs| < w && forall k | 0 <= k < |bs| :: bs[k] >= 128)
  {
  }

  lemma StopsNever(bs: seq<Byte>, w: nat)
    requires 7 * |bs| < w && forall k | 0 <= k < |bs| :: bs[k] >= 128
    ensures forall n: nat :: !Stops(bs, 0, w, n)
  {
  }

  // ---------- strings ----------

  /** A string is its length in 2, 4 or 8 bytes in the buffer's order, or as a varint, and then its bytes as they are. */
  lemma TextBytes(len: LengthKind, s: seq<Byte>, little: bool, host: bool)
    ensures var bs := Encode(Text(len, s), little, host);
            match len
            case F16 => HasPrefix(bs, |s|, 2, little, s)
            case F32 => HasPrefix(bs, |s|, 4, little, s)
            case F64 => HasPrefix(bs, |s|, 8, little, s)
            case Vint => bs == VarintBytes(Wrap(|s|, 64)) + s
  {
    hide HasPrefix, VarintBytes, FixedBytes, Wrap;
    match len
    case F16 => Prefixed(|s|, 2, little, host, s);
    case F32 => Prefixed(|s|, 4, little, host, s);
    case F64 => Prefixed(|s|, 8, little, host, s);
    case Vint =>
  }

  /** `n` bytes that say `size`, cut to their width, and behind them `s`. */
  ghost predicate HasPrefix(bs: seq<Byte>, size: nat, n: nat, little: bool, s: seq<Byte>) {
    && |bs| == n + |s| && bs[n..] == s
    && forall i | 0 <= i < n :: bs[i] == Digit(Wrap(size, 8 * n), if little then i else n - 1 - i)
  }

  lemma Prefixed(size: nat, n: nat, little: bool, host: bool, s: seq<Byte>)
    ensures HasPrefix(FixedBytes(Wrap(size, 8 * n), n, little, host) + s, size, n, little, s)
  {
    hide Digit, Wrap, FixedBytes;
    var u := Wrap(size, 8 * n);
    FixedLength(u, n, little, host);
    forall i | 0 <= i < n
      ensures FixedBytes(u, n, little, host)[i] == Digit(u, if little then i else n - 1 - i)
    {
      FixedByteAt(u, n, little, host, i);
    }
  }

  // ---------- whole values ----------

  /** A value of a signed or an unsigned range, as it is or as its two's complement. */
  lemma TwosComplement(v: int, w: nat, signed: bool)
    requires w > 0
    requires if signed then -(Pow2(w - 1) as int) <= v < Pow2(w - 1) else 0 <= v < Pow2(w)
    ensures if signed then IsSigned(v, w) else 0 <= v < Pow2(w)
    ensures Wrap(v, w) == if v < 0 then v + Pow2(w) else v
  {
    HalfPow2(w);
    hide Pow2, Wrap;
    if v < 0 {
      WrapBelowZero(v, w);
    } else {
      WrapSmall(v, w);
    }
  }

  /** A fixed-width value of any width offered and any value of its range: the digits of the value itself, or of its two's
      complement. */
  lemma FixedBytesOf(n: nat, signed: bool, v: int, little: bool, host: bool, i: nat)
    requires n == 1 || n == 2 || n == 4 || n == 8
    requires if signed then -(Pow2(8 * n - 1) as int) <= v < Pow2(8 * n - 1) else 0 <= v < Pow2(8 * n)
    requires i < n
    ensures Fits(Fixed(n, signed, v)) && |Encode(Fixed(n, signed, v), little, host)| == n
    ensures Encode(Fixed(n, signed, v), little, host)[i]
            == Digit(if v < 0 then v + Pow2(8 * n) else v, if little then i else n - 1 - i)
  {
    hide Pow2, Wrap, FixedBytes, Digit, IsSigned;
    TwosComplement(v, 8 * n, signed);
    FixedLength(Wrap(v, 8 * n), n, little, host);
    FixedByteAt(Wrap(v, 8 * n), n, little, host, i);
  }

  lemma WrapBelowZero(v: int, w: nat)
    requires -(Pow2(w) as int) <= v < 0
    ensures Wrap(v, w) == v + Pow2(w)
  {
    ModNegative(v, Pow2(w));
  }

  /** An unsigned varint, and a signed one by zigzag. */
  lemma VarintBytesOf(w: nat, u: nat, i: int, little: bool, host: bool)
    requires w == 32 || w == 64
    requires u < Pow2(w) && -(Pow2(w - 1) as int) <= i < Pow2(w - 1)
    ensures Fits(Varint(w, u)) && Encode(Varint(w, u), little, host) == VarintBytes(u)
    ensures Fits(Zig(w, i)) && Encode(Zig(w, i), little, host) == VarintBytes(if i < 0 then -2 * i - 1 else 2 * i)
  {
    hide Pow2, VarintBytes, Zigzag.Encode;
    Zigzag.EncodeValue(i, w);
  }

  // ---------- what is cut off ----------

  /** The beginning of a value, as far as it goes, is never taken for one: whatever is missing, reading throws. */
  lemma BeginningThrows(r: Record, bs: seq<Byte>, little: bool, writer: bool, reader: bool)
    requires Fits(r) && bs < Encode(r, little, writer)
    ensures Decode(KindOf(r), bs, little, reader) == Threw
  {
    hide Pow2, Zigzag.Encode, VarintBytes, VarintFrom, FixedBytes;
    match r
    case Fixed(n, _, v) => FixedLength(Wrap(v, 8 * n), n, little, writer);
    case Varint(w, u) => VarintCutShort(u, w, bs);
    case Zig(w, i) =>
      ZigzagIsWord(i, w);
      VarintCutShort(Zigzag.Encode(i, w), w, bs);
    case Text(len, s) => TextCutShort(len, s, bs, little, writer, reader);
  }

  lemma VarintCutShort(u: nat, w: nat, bs: seq<Byte>)
    requires w > 0 && u < Pow2(w) && bs < VarintBytes(u)
    ensures VarintFrom(bs, 0, w) == Short
  {
    hide Pow2, VarintBytes, VarintFrom;
    VarintFits(u, w);
    forall k | 0 <= k < |bs|
      ensures bs[k] >= 128
    {
      VarintByteAt(u, k);
      assert bs[k] == VarintBytes(u)[k];
    }
    VarintMeans(bs, w);
  }

  lemma TextCutShort(len: LengthKind, s: seq<Byte>, bs: seq<Byte>, little: bool, writer: bool, reader: bool)
    requires |s| < Pow2(LengthBits(len)) && bs < Encode(Text(len, s), little, writer)
    ensures Decode(TextKind(len), bs, little, reader) == Threw
  {
    hide Pow2, VarintBytes, VarintFrom, FixedBytes, FromFixed, Wrap, LengthBytes, DecodeLength;
    var l := LengthBytes(len, |s|, little, writer);
    if |bs| < |l| {
      assert bs < l;
      LengthCutShort(len, |s|, bs, little, writer, reader);
    } else {
      assert bs == l + bs[|l|..];
      LengthRoundTrip(len, |s|, bs[|l|..], little, writer, reader);
    }
  }

  lemma LengthCutShort(len: LengthKind, size: nat, bs: seq<Byte>, little: bool, writer: bool, reader: bool)
    requires size < Pow2(LengthBits(len)) && bs < LengthBytes(len, size, little, writer)
    ensures DecodeLength(len, bs, little, reader) == Threw
  {
    hide Pow2, VarintBytes, VarintFrom, FixedBytes, FromFixed;
    if len == Vint {
      WrapSmall(size, 64);
      VarintCutShort(size, 64, bs);
    } else {
      FixedLength(Wrap(size, LengthBits(len)), LengthBits(len) / 8, little, writer);
    }
  }
}
