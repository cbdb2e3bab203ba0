/** Typed values written to the buffer one after another and read back by the same types. */
module Records {
  import opened Basics
  import opened Words
  import opened Layout
  import opened ByteBuffer
  import opened Codec
  import Zigzag

  /** How the length of a string is written. */
  datatype LengthKind = F16 | F32 | F64 | Vint

  datatype Kind = FixedKind(n: nat, signed: bool) | VarintKind(w: nat) | ZigzagKind(w: nat) | TextKind(len: LengthKind)

  datatype Record =
    | Fixed(n: nat, signed: bool, v: int)
    | Varint(w: nat, u: nat)
    | Zig(w: nat, i: int)
    | Text(len: LengthKind, s: seq<Byte>)

  /** The widths the buffer offers: 1, 2, 4 or 8 bytes fixed, 32 or 64 bits as a varint. */
  predicate IsKind(k: Kind) {
    match k
    case FixedKind(n, _) => n in {1, 2, 4, 8}
    case VarintKind(w) => w in {32, 64}
    case ZigzagKind(w) => w in {32, 64}
    case TextKind(_) => true
  }

  function KindOf(r: Record): Kind {
    match r
    case Fixed(n, signed, _) => FixedKind(n, signed)
    case Varint(w, _) => VarintKind(w)
    case Zig(w, _) => ZigzagKind(w)
    case Text(len, _) => TextKind(len)
  }

  function LengthBits(len: LengthKind): nat {
    match len case F16 => 16 case F32 => 32 case F64 => 64 case Vint => 64
  }

  /** Everything but a string must fit its type; a string may be of any length. */
  predicate Writable(r: Record) {
    && IsKind(KindOf(r))
    && match r
       case Fixed(n, signed, v) => if signed then IsSigned(v, 8 * n) else 0 <= v < Pow2(8 * n)
       case Varint(w, u) => u < Pow2(w)
       case Zig(w, i) => IsSigned(i, w)
       case Text(_, _) => true
  }

  /** The value is one its type can hold, and a string is no longer than its length field can say. */
  predicate Fits(r: Record) {
    Writable(r) && (r.Text? ==> |r.s| < Pow2(LengthBits(r.len)))
  }

  predicate AllWritable(rs: seq<Record>) {
    forall i | 0 <= i < |rs| :: IsKind(KindOf(rs[i])) && Writable(rs[i])
  }

  predicate AllFit(rs: seq<Record>) {
    AllWritable(rs) && forall i | 0 <= i < |rs| :: Fits(rs[i])
  }

  function LengthBytes(len: LengthKind, size: nat, little: bool, host: bool): seq<Byte> {
    if len == Vint then VarintBytes(Wrap(size, 64))
    else FixedBytes(Wrap(size, LengthBits(len)), LengthBits(len) / 8, little, host)
  }

  /** The bytes a value is written as; a length that is too long for its field is cut to the field's width. */
  function Encode(r: Record, little: bool, host: bool): seq<Byte>
    requires Writable(r)
  {
    match r
    case Fixed(n, _, v) => FixedBytes(Wrap(v, 8 * n), n, little, host)
    case Varint(_, u) => VarintBytes(u)
    case Zig(w, i) => VarintBytes(Zigzag.Encode(i, w))
    case Text(len, s) => LengthBytes(len, |s|, little, host) + s
  }

  datatype Outcome<T> = Got(value: T, used: nat) | Threw

  /** What a read of the given type makes of the unread bytes: the value and the bytes taken, or an exception. */
  function Decode(k: Kind, bs: seq<Byte>, little: bool, host: bool): Outcome<Record>
    requires IsKind(k)
  {
    match k
    case FixedKind(n, signed) =>
      if |bs| < n then Threw
      else
        var u := FromFixed(bs[..n], little, host);
        WordOf(bs[..n], little, host);
        Got(Fixed(n, signed, if signed then Signed(u, 8 * n) else u), n)
    case VarintKind(w) =>
      (match VarintFrom(bs, 0, w)
       case Short => Threw
       case Parsed(u, n) => Got(Varint(w, u), n))
    case ZigzagKind(w) =>
      (match VarintFrom(bs, 0, w)
       case Short => Threw
       case Parsed(u, n) =>
         VarintInRange(bs, w);
         Got(Zig(w, Zigzag.Decode(u, w)), n))
    case TextKind(len) =>
      match DecodeLength(len, bs, little, host)
      case Threw => Threw
      case Got(size, n) => if |bs| - n < size then Threw else Got(Text(len, bs[n..n + size]), n + size)
  }

  function DecodeLength(len: LengthKind, bs: seq<Byte>, little: bool, host: bool): (r: Outcome<nat>)
    ensures r.Got? ==> r.used <= |bs|
  {
    if len == Vint then
      match VarintFrom(bs, 0, 64)
      case Short => Threw
      case Parsed(u, n) => Got(u, n)
    else
      var n := LengthBits(len) / 8;
      if |bs| < n then Threw else Got(FromFixed(bs[..n], little, host), n)
  }

  lemma WordOf(bs: seq<Byte>, little: bool, host: bool)
    ensures FromFixed(bs, little, host) < Pow2(8 * |bs|)
  {
    FromFixedIsPortable(bs, little, host);
    LittleFromBytes(bs);
    LittleFromBytes(Flip(bs));
  }

  lemma SignedWrap(v: int, w: nat)
    requires w > 0 && IsSigned(v, w)
    ensures Signed(Wrap(v, w), w) == v
  {
    HalfPow2(w);
    if v < 0 {
      ModNegative(v, Pow2(w));
    } else {
      ModSmall(v, Pow2(w));
    }
  }

  /** Whatever follows a written value, reading it by its type gives it back and takes exactly its bytes. */
  lemma RecordRoundTrip(r: Record, rest: seq<Byte>, little: bool, writer: bool, reader: bool)
    requires Fits(r)
    ensures Decode(KindOf(r), Encode(r, little, writer) + rest, little, reader) == Got(r, |Encode(r, little, writer)|)
  {
    hide Pow2, Zigzag.Encode, Zigzag.Decode;
    match r
    case Fixed(n, signed, v) => FixedBack(r, rest, little, writer, reader);
    case Varint(w, u) => VarintBack(u, w, rest);
    case Zig(w, i) =>
      ZigzagIsWord(i, w);
      VarintBack(Zigzag.Encode(i, w), w, rest);
      Zigzag.DecodeEncode(i, w);
    case Text(len, s) => TextBack(r, rest, little, writer, reader);
  }

  lemma FixedBack(r: Record, rest: seq<Byte>, little: bool, writer: bool, reader: bool)
    requires Fits(r) && r.Fixed?
    ensures Decode(KindOf(r), Encode(r, little, writer) + rest, little, reader) == Got(r, |Encode(r, little, writer)|)
  {
    hide Pow2, FromFixed, FixedBytes, Wrap, Signed;
    var n := r.n;
    var u := Wrap(r.v, 8 * n);
    FixedLength(u, n, little, writer);
    assert (Encode(r, little, writer) + rest)[..n] == FixedBytes(u, n, little, writer);
    FixedRoundTrip(u, n, little, writer, reader);
    if r.signed {
      SignedWrap(r.v, 8 * n);
    } else {
      WrapSmall(r.v, 8 * n);
    }
  }

  lemma TextBack(r: Record, rest: seq<Byte>, little: bool, writer: bool, reader: bool)
    requires Fits(r) && r.Text?
    ensures Decode(KindOf(r), Encode(r, little, writer) + rest, little, reader) == Got(r, |Encode(r, little, writer)|)
  {
    hide Pow2, FromFixed, FixedBytes, Wrap, LengthBytes, DecodeLength;
    var l := LengthBytes(r.len, |r.s|, little, writer);
    LengthRoundTrip(r.len, |r.s|, r.s + rest, little, writer, reader);
    var bs := Encode(r, little, writer) + rest;
    assert bs == l + (r.s + rest);
    assert bs[|l|..|l| + |r.s|] == r.s;
  }

  lemma VarintBack(u: nat, w: nat, rest: seq<Byte>)
    requires u < Pow2(w) && w > 0
    ensures VarintFrom(VarintBytes(u) + rest, 0, w) == Parsed(u, |VarintBytes(u)|)
  {
    assert u * Pow2(0) == u;
    VarintRoundTrip(u, 0, w, rest);
  }

  lemma ZigzagIsWord(i: int, w: nat)
    requires w > 1 && IsSigned(i, w)
    ensures Zigzag.Encode(i, w) < Pow2(w)
  {
  }

  lemma LengthRoundTrip(len: LengthKind, size: nat, rest: seq<Byte>, little: bool, writer: bool, reader: bool)
    requires size < Pow2(LengthBits(len))
    ensures var l := LengthBytes(len, size, little, writer);
            DecodeLength(len, l + rest, little, reader) == Got(size, |l|)
  {
    hide Pow2, FromFixed, FixedBytes, Wrap;
    WrapSmall(size, LengthBits(len));
    if len == Vint {
      VarintBack(size, 64, rest);
    } else {
      var n := LengthBits(len) / 8;
      FixedLength(size, n, little, writer);
      FixedRoundTrip(size, n, little, writer, reader);
      assert (FixedBytes(size, n, little, writer) + rest)[..n] == FixedBytes(size, n, little, writer);
    }
  }

  /** A string longer than its length field can say does not come back: its length is cut to the field's width, so whatever
      follows only its first bytes are read, and the next read begins inside it. */
  lemma LongTextIsCut(len: LengthKind, s: seq<Byte>, rest: seq<Byte>, little: bool, writer: bool, reader: bool)
    requires |s| >= Pow2(LengthBits(len))
    ensures var bs, k := Encode(Text(len, s), little, writer), Wrap(|s|, LengthBits(len));
            k < |s| && Decode(TextKind(len), bs + rest, little, reader) == Got(Text(len, s[..k]), |bs| - (|s| - k))
  {
    hide Pow2, FromFixed, FixedBytes, Wrap, LengthBytes, DecodeLength;
    var bs, k := Encode(Text(len, s), little, writer) + rest, Wrap(|s|, LengthBits(len));
    var l := LengthBytes(len, |s|, little, writer);
    LengthRoundTripCut(len, |s|, s + rest, little, writer, reader);
    assert bs == l + (s + rest);
    assert bs[|l|..|l| + k] == s[..k];
  }

  lemma LengthRoundTripCut(len: LengthKind, size: nat, rest: seq<Byte>, little: bool, writer: bool, reader: bool)
    ensures var l := LengthBytes(len, size, little, writer);
            DecodeLength(len, l + rest, little, reader) == Got(Wrap(size, LengthBits(len)), |l|)
  {
    hide Pow2, FromFixed, FixedBytes, Wrap;
    var k := Wrap(size, LengthBits(len));
    WrapSmall(k, LengthBits(len));
    LengthRoundTrip(len, k, rest, little, writer, reader);
  }

  // ---------- on the buffer ----------

  /** What a typed read does: hands back a value, throws because bytes are missing, or follows a null cursor. */
  datatype ReadOutcome<T> = Value(value: T) | Exception | NullDereference

  /** Exactly `bs` has been written at the old position. */
  twostate predicate Wrote(ba: ByteArray, bs: seq<Byte>)
    requires old(ba.Valid())
    reads ba, ba.nodes, ba.Arrays()
  {
    ba.Valid() && ba.OnlyGrows() && FlatWrite(old(ba.View()), bs, ba.View(), ba.baseSize)
  }

  /** A fixed-width write: `writeFint8` to `writeFuint64`, floats and doubles by their bit patterns. */
  method WriteFixed(ba: ByteArray, u: nat, n: nat, host: bool)
    requires ba.Valid() && u < Pow2(8 * n)
    modifies ba, ba.nodes, ba.Arrays()
    ensures Wrote(ba, FixedBytes(u, n, ba.littleEndian, host))
    ensures ba.littleEndian == old(ba.littleEndian)
  {
    hide FlatWrite, ByteArray.Valid, ByteArray.View, LittleBytes;
    var v := if ba.littleEndian == host then u else ByteSwap(u, n);
    ba.Write(HostBytes(v, n, host));
  }

  /** The loop of a varint write: groups of seven bits, low first, collected in a fixed array of 5 or 10 bytes. */
  method CollectVarint(u: nat, w: nat) returns (bs: seq<Byte>)
    requires w in {32, 64} && u < Pow2(w)
    ensures bs == VarintBytes(u)
  {
    hide Pow2, Or;
    var tmp := new Byte[if w == 32 then 5 else 10];
    VarintFits(u, w);
    var i: nat, value: nat := 0, u;
    while value >= 128
      invariant i + |VarintBytes(value)| == |VarintBytes(u)|
      invariant tmp[..i] + VarintBytes(value) == VarintBytes(u)
      decreases value
    {
      MarkMore(value);
      assert VarintBytes(value) == [value % 128 + 128] + VarintBytes(value / 128);
      tmp[i] := Or(value % 128, 128);
      i, value := i + 1, value / 128;
    }
    tmp[i] := value;
    i := i + 1;
    bs := tmp[..i];
  }

  lemma MarkMore(value: nat)
    ensures Or(value % 128, 128) == value % 128 + 128
  {
    assert Pow2(7) == 128;
    OrDisjoint(value % 128, 1, 7);
  }

  method WriteVarint(ba: ByteArray, u: nat, w: nat)
    requires ba.Valid() && w in {32, 64} && u < Pow2(w)
    modifies ba, ba.nodes, ba.Arrays()
    ensures Wrote(ba, VarintBytes(u))
    ensures ba.littleEndian == old(ba.littleEndian)
  {
    hide FlatWrite, ByteArray.Valid, ByteArray.View, VarintBytes;
    var tmp := CollectVarint(u, w);
    ba.Write(tmp);
  }

  /** A string write: its length, then its bytes. */
  method WriteText(ba: ByteArray, len: LengthKind, s: seq<Byte>, host: bool)
    requires ba.Valid()
    modifies ba, ba.nodes, ba.Arrays()
    ensures Wrote(ba, LengthBytes(len, |s|, ba.littleEndian, host) + s)
    ensures ba.littleEndian == old(ba.littleEndian)
  {
    hide VarintBytes, FixedBytes, FlatWrite, ByteArray.Valid, ByteArray.View, LengthBytes;
    ghost var prefix := LengthBytes(len, |s|, ba.littleEndian, host);
    ghost var f := ba.View();
    WriteLength(ba, len, |s|, host);
    ghost var g := ba.View();
    ba.Write(s);
    WriteCompose(f, prefix, g, s, ba.View(), ba.baseSize);
  }

  method WriteLength(ba: ByteArray, len: LengthKind, size: nat, host: bool)
    requires ba.Valid()
    modifies ba, ba.nodes, ba.Arrays()
    ensures Wrote(ba, LengthBytes(len, size, ba.littleEndian, host))
    ensures ba.littleEndian == old(ba.littleEndian)
  {
    hide FlatWrite, ByteArray.Valid, ByteArray.View, VarintBytes, FixedBytes;
    if len == Vint {
      WriteVarint(ba, Wrap(size, 64), 64);
    } else {
      WriteFixed(ba, Wrap(size, LengthBits(len)), LengthBits(len) / 8, host);
    }
  }

  method WriteRecord(ba: ByteArray, r: Record, host: bool)
    requires ba.Valid() && Writable(r)
    modifies ba, ba.nodes, ba.Arrays()
    ensures Wrote(ba, Encode(r, ba.littleEndian, host))
    ensures ba.littleEndian == old(ba.littleEndian)
  {
    hide FlatWrite, ByteArray.Valid, ByteArray.View, VarintBytes, FixedBytes, LengthBytes, Pow2, Zigzag.Encode;
    match r
    case Fixed(n, signed, v) => WriteFixed(ba, Wrap(v, 8 * n), n, host);
    case Varint(w, u) => WriteVarint(ba, u, w);
    case Zig(w, i) =>
      ZigzagIsWord(i, w);
      WriteVarint(ba, Zigzag.Encode(i, w), w);
    case Text(len, s) => WriteText(ba, len, s, host);
  }

  function EncodeAll(rs: seq<Record>, little: bool, host: bool): seq<Byte>
    requires AllWritable(rs)
  {
    if rs == [] then [] else EncodeAll(rs[..|rs| - 1], little, host) + Encode(rs[|rs| - 1], little, host)
  }

  method WriteAll(ba: ByteArray, rs: seq<Record>, host: bool)
    requires ba.Valid() && AllWritable(rs)
    modifies ba, ba.nodes, ba.Arrays()
    ensures Wrote(ba, EncodeAll(rs, ba.littleEndian, host))
    ensures ba.littleEndian == old(ba.littleEndian)
  {
    hide FlatWrite, ByteArray.Valid, ByteArray.View, Encode;
    ghost var f := ba.View();
    ba.WroteNothing();
    for i := 0 to |rs|
      invariant ba.Valid() && ba.OnlyGrows() && ba.littleEndian == old(ba.littleEndian)
      invariant FlatWrite(f, EncodeAll(rs[..i], ba.littleEndian, host), ba.View(), ba.baseSize)
    {
      ghost var g := ba.View();
      assert rs[..i + 1][..i] == rs[..i];
      WriteRecord(ba, rs[i], host);
      WriteCompose(f, EncodeAll(rs[..i], ba.littleEndian, host), g,
                   Encode(rs[i], ba.littleEndian, host), ba.View(), ba.baseSize);
    }
    assert rs[..|rs|] == rs;
  }

  ghost function Unread(f: Flat): seq<Byte>
    requires FlatOk(f)
  {
    f.mem[f.position..f.size]
  }

  /** A typed read that would decode `d` from the unread bytes did so, threw, or (when `crash`) followed a null cursor;
      the contents of the buffer are untouched. */
  ghost predicate ReadsAs<T>(f: Flat, d: Outcome<T>, crash: bool, r: ReadOutcome<T>, g: Flat) {
    && FlatOk(f) && FlatOk(g)
    && g.mem == f.mem && g.size == f.size && g.little == f.little
    && match d
       case Threw => r.Exception?
       case Got(v, n) => if crash then r.NullDereference? else r == Value(v) && g.position == f.position + n
  }

  ghost function DecodeFixed(bs: seq<Byte>, n: nat, little: bool, host: bool): Outcome<nat> {
    if |bs| < n then Threw else Got(FromFixed(bs[..n], little, host), n)
  }

  ghost function DecodeVarint(bs: seq<Byte>, w: nat): Outcome<nat> {
    match VarintFrom(bs, 0, w) case Short => Threw case Parsed(u, n) => Got(u, n)
  }

  method ReadFixed(ba: ByteArray, n: nat, host: bool) returns (r: ReadOutcome<nat>)
    requires ba.Valid() && n > 0
    modifies ba`cur, ba`position
    ensures ba.Valid()
    ensures ReadsAs(old(ba.View()), DecodeFixed(Unread(old(ba.View())), n, ba.littleEndian, host), false, r, ba.View())
  {
    hide FromFixed, ByteArray.Mem;
    ghost var f := ba.View();
    var got := ba.Read(n);
    match got
    case OutOfRange => r := Exception;
    case Bytes(data) =>
      assert data == Unread(f)[..n];
      r := Value(FromFixed(data, ba.littleEndian, host));
  }

  /** The next seven bits land above the ones already read: or-ing them in adds them. */
  lemma OrStep(result: nat, x: nat, i: nat, w: nat)
    requires result < Pow2(i) && i < w && x < 128
    ensures Or(result, Wrap(x * Pow2(i), w)) == result + Wrap(x * Pow2(i), w)
    ensures i + 7 <= w ==> result + Wrap(x * Pow2(i), w) < Pow2(i + 7)
  {
    WrapShift(x, i, w);
    var m := Wrap(x, w - i);
    OrDisjoint(result, m, i);
    if i + 7 <= w {
      Pow2Add(7, i);
      assert Pow2(7) == 128;
      assert m <= x by { WrapAtMost(x, w - i); }
      MulStep(m, Pow2(i));
    }
  }

  lemma WrapAtMost(x: nat, n: nat)
    ensures Wrap(x, n) <= x
  {
    if x < Pow2(n) {
      WrapSmall(x, n);
    }
  }

  lemma MulStep(m: nat, p: nat)
    requires m < 128
    ensures m * p + p <= 128 * p
  {
  }

  /** How far a varint read has come at bit `i`: the bytes taken and the bits gathered complete what is still to come. */
  ghost predicate Midway(f: Flat, g: Flat, w: nat, i: nat, result: nat) {
    && FlatOk(f) && g == f.(position := g.position) && f.position <= g.position <= f.size
    && (i <= w ==> result < Pow2(i))
    && VarintFrom(Unread(f), 0, w) ==
         match VarintFrom(Unread(g), i, w)
         case Short => Short
         case Parsed(v, n) => Parsed(result + v, g.position - f.position + n)
  }

  lemma MidwayStep(f: Flat, g: Flat, h: Flat, w: nat, i: nat, result: nat)
    requires Midway(f, g, w, i, result) && i < w && g.position < g.size
    requires h == g.(position := g.position + 1)
    ensures var b := g.mem[g.position];
            var next := Or(result, Wrap(b % 128 * Pow2(i), w));
            if b < 128 then VarintFrom(Unread(f), 0, w) == Parsed(next, h.position - f.position)
            else Midway(f, h, w, i + 7, next)
  {
    hide Pow2, Wrap, Or;
    var b := g.mem[g.position];
    assert Unread(g)[0] == b && Unread(g)[1..] == Unread(h);
    OrStep(result, b % 128, i, w);
  }

  /** A varint read: one byte at a time, seven bits each, until a byte below 128 or until the word is full. */
  method ReadVarint(ba: ByteArray, w: nat) returns (r: ReadOutcome<nat>)
    requires ba.Valid() && w in {32, 64}
    modifies ba`cur, ba`position
    ensures ba.Valid()
    ensures ReadsAs(old(ba.View()), DecodeVarint(Unread(old(ba.View())), w), false, r, ba.View())
  {
    hide ByteArray.Mem, ByteArray.Shape, ByteArray.CursorOk, Pow2, Wrap, Or, Midway;
    ghost var f := ba.View();
    var result: nat, i: nat := 0, 0;
    MidwayStart(f, w);
    while i < w
      invariant ba.Valid() && Midway(f, ba.View(), w, i, result)
    {
      ghost var g := ba.View();
      MidwayFacts(f, g, w, i, result);
      var got := ba.Read(1);
      if got.OutOfRange? {
        return Exception;
      }
      var b := got.data[0];
      MidwayStep(f, g, ba.View(), w, i, result);
      result := Or(result, Wrap(b % 128 * Pow2(i), w));
      if b < 128 {
        break;
      }
      i := i + 7;
    }
    if i >= w {
      MidwayFacts(f, ba.View(), w, i, result);
    }
    r := Value(result);
  }

  lemma MidwayStart(f: Flat, w: nat)
    requires FlatOk(f)
    ensures Midway(f, f, w, 0, 0)
  {
  }

  lemma MidwayFacts(f: Flat, g: Flat, w: nat, i: nat, result: nat)
    requires Midway(f, g, w, i, result)
    ensures FlatOk(f) && FlatOk(g) && g == f.(position := g.position) && f.position <= g.position
    ensures i >= w ==> VarintFrom(Unread(f), 0, w) == Parsed(result, g.position - f.position)
    ensures i < w && g.position == g.size ==> VarintFrom(Unread(f), 0, w) == Short
  {
  }

  method ReadLength(ba: ByteArray, len: LengthKind, host: bool) returns (r: ReadOutcome<nat>)
    requires ba.Valid()
    modifies ba`cur, ba`position
    ensures ba.Valid()
    ensures ReadsAs(old(ba.View()), DecodeLength(len, Unread(old(ba.View())), ba.littleEndian, host), false, r, ba.View())
  {
    hide ByteArray.Valid, ByteArray.View, FromFixed, FlatOk, Unread, VarintFrom;
    if len == Vint {
      r := ReadVarint(ba, 64);
    } else {
      r := ReadFixed(ba, LengthBits(len) / 8, host);
    }
  }

  /** A string read: the length, then that many bytes. An empty string whose length field ends at the very end of the
      last block meets the null cursor. */
  method ReadText(ba: ByteArray, len: LengthKind, host: bool) returns (r: ReadOutcome<Record>)
    requires ba.Valid()
    modifies ba`cur, ba`position
    ensures ba.Valid()
    ensures var f := old(ba.View());
            var d := Decode(TextKind(len), Unread(f), ba.littleEndian, host);
            ReadsAs(f, d, EndsOnNull(f, d), r, ba.View())
  {
    hide ByteArray.Valid, ByteArray.View, DecodeLength, Decode, FlatRead, Unread, EndsOnNull;
    ghost var f := ba.View();
    TextThrows(len, Unread(f), ba.littleEndian, host);
    var size := ReadLength(ba, len, host);
    if !size.Value? {
      return Exception;
    }
    ghost var g := ba.View();
    var got := ba.Read(size.value);
    TextOutcome(f, g, ba.View(), len, size.value, got, ba.littleEndian, host);
    r := match got
         case OutOfRange => Exception
         case NullCursor => NullDereference
         case Bytes(data) => Value(Text(len, data));
  }

  lemma TextThrows(len: LengthKind, bs: seq<Byte>, little: bool, host: bool)
    ensures DecodeLength(len, bs, little, host).Threw? ==> Decode(TextKind(len), bs, little, host).Threw?
  {
  }

  /** The length read, what reading that many bytes makes of the string. */
  lemma TextOutcome(f: Flat, g: Flat, h: Flat, len: LengthKind, size: nat, got: ReadResult, little: bool, host: bool)
    requires FlatOk(f)
    requires ReadsAs(f, DecodeLength(len, Unread(f), little, host), false, Value(size), g) && FlatRead(g, size, got, h)
    ensures var d := Decode(TextKind(len), Unread(f), little, host);
            var r := match got
                     case OutOfRange => Exception
                     case NullCursor => NullDereference
                     case Bytes(data) => Value(Text(len, data));
            ReadsAs(f, d, EndsOnNull(f, d), r, h)
  {
    hide DecodeLength;
    if got.Bytes? {
      var n := g.position - f.position;
      SliceOfSlice(f.mem, f.position, f.size, n, n + size);
    }
  }

  /** The read decodes an empty string and its last byte is the last byte of the last block. */
  ghost predicate EndsOnNull(f: Flat, d: Outcome<Record>) {
    d.Got? && d.value.Text? && d.value.s == [] && f.position + d.used == |f.mem|
  }

  method ReadRecord(ba: ByteArray, k: Kind, host: bool) returns (r: ReadOutcome<Record>)
    requires ba.Valid() && IsKind(k)
    modifies ba`cur, ba`position
    ensures ba.Valid()
    ensures var f := old(ba.View());
            var d := Decode(k, Unread(f), ba.littleEndian, host);
            ReadsAs(f, d, EndsOnNull(f, d), r, ba.View())
  {
    hide ByteArray.Valid, ByteArray.View, FromFixed, VarintFrom, DecodeLength, FlatOk, Unread, Signed, Zigzag.Decode, Pow2;
    match k
    case FixedKind(n, signed) =>
      ghost var bs := Unread(ba.View());
      var u := ReadFixed(ba, n, host);
      if u.Value? {
        WordOf(bs[..n], ba.littleEndian, host);
        r := Value(Fixed(n, signed, if signed then Signed(u.value, 8 * n) else u.value));
      } else {
        r := Exception;
      }
    case VarintKind(w) =>
      var u := ReadVarint(ba, w);
      r := if u.Value? then Value(Varint(w, u.value)) else Exception;
    case ZigzagKind(w) =>
      ghost var bs := Unread(ba.View());
      var u := ReadVarint(ba, w);
      if u.Value? {
        VarintInRange(bs, w);
        r := Value(Zig(w, Zigzag.Decode(u.value, w)));
      } else {
        r := Exception;
      }
    case TextKind(len) =>
      r := ReadText(ba, len, host);
  }

  predicate IsEmptyText(r: Record) {
    r.Text? && r.s == []
  }

  lemma EncodeNotEmpty(r: Record, little: bool, host: bool)
    requires Writable(r)
    ensures Encode(r, little, host) != []
  {
  }

  /** The encoding of a list around its `i`-th record. */
  lemma {:induction false} EncodeAround(rs: seq<Record>, i: nat, little: bool, host: bool) returns (tail: seq<Byte>)
    requires i < |rs| && AllWritable(rs)
    ensures EncodeAll(rs, little, host) == EncodeAll(rs[..i], little, host) + Encode(rs[i], little, host) + tail
    ensures tail == [] <==> i == |rs| - 1
    decreases |rs|
  {
    hide Encode, Writable;
    var n := |rs| - 1;
    if i == n {
      tail := [];
    } else {
      tail := EncodeAround(rs[..n], i, little, host);
      assert rs[..n][..i] == rs[..i];
      EncodeNotEmpty(rs[n], little, host);
      tail := tail + Encode(rs[n], little, host);
    }
  }

  /** The encoding of the records stands in the buffer from `start` on. */
  ghost predicate Stored(f: Flat, rs: seq<Record>, start: nat, writer: bool) {
    && AllFit(rs) && FlatOk(f)
    && var bs := EncodeAll(rs, f.little, writer);
       start + |bs| <= f.size && f.mem[start..start + |bs|] == bs
  }

  /** Where the first `i` records end. */
  ghost function EndOf(f: Flat, rs: seq<Record>, start: nat, writer: bool, i: nat): nat
    requires AllFit(rs) && i <= |rs|
  {
    start + |EncodeAll(rs[..i], f.little, writer)|
  }

  /** While the records are read back, the next read decodes the next record; it ends on the null cursor exactly when
      that record is the last one, is an empty string, and fills the last block. */
  lemma NextRecord(rs: seq<Record>, i: nat, h: Flat, start: nat, writer: bool, reader: bool)
    requires Stored(h, rs, start, writer) && i < |rs| && h.position == EndOf(h, rs, start, writer, i)
    ensures IsKind(KindOf(rs[i]))
    ensures var d := Decode(KindOf(rs[i]), Unread(h), h.little, reader);
            && d.Got? && d.value == rs[i] && h.position + d.used == EndOf(h, rs, start, writer, i + 1)
            && (EndsOnNull(h, d) <==> i == |rs| - 1 && IsEmptyText(rs[i]) && EndOf(h, rs, start, writer, |rs|) == |h.mem|)
  {
    hide Encode, Decode, Fits, Writable, Unread;
    var bs := EncodeAll(rs, h.little, writer);
    var a, e := EncodeAll(rs[..i], h.little, writer), Encode(rs[i], h.little, writer);
    var tail := EncodeAround(rs, i, h.little, writer);
    assert rs[..i + 1][..i] == rs[..i] && rs[..|rs|] == rs;
    UnreadFrom(h, start, bs, a, e + tail);
    var rest := h.mem[start + |bs|..h.size];
    assert e + tail + rest == e + (tail + rest);
    RecordRoundTrip(rs[i], tail + rest, h.little, writer, reader);
  }

  lemma UnreadFrom(h: Flat, start: nat, bs: seq<Byte>, a: seq<Byte>, b: seq<Byte>)
    requires FlatOk(h) && start + |bs| <= h.size && h.mem[start..start + |bs|] == bs
    requires h.position == start + |a| && bs == a + b
    ensures Unread(h) == b + h.mem[start + |bs|..h.size]
  {
    SliceStep(h.mem, h.position, start + |bs|, h.size);
    SliceOfSlice(h.mem, start, start + |bs|, |a|, |bs|);
    assert bs[|a|..|bs|] == b;
  }

  lemma WroteFacts(f: Flat, bs: seq<Byte>, g: Flat, n: nat)
    requires FlatWrite(f, bs, g, n)
    ensures g.position == f.position + |bs| && g.position <= g.size && f.position <= |g.mem|
    ensures g.position <= |g.mem| == GrownCapacity(|f.mem|, f.position, |bs|, n)
    ensures g.mem[f.position..g.position] == bs
    ensures g.little == f.little
  {
  }

  /** Reads records back by their types, stopping if a null cursor is met. */
  method ReadBack(ba: ByteArray, rs: seq<Record>, ghost start: nat, ghost writer: bool, reader: bool)
    returns (got: seq<Record>, crashed: bool)
    requires ba.Valid() && Stored(ba.View(), rs, start, writer) && ba.position == start
    modifies ba`cur, ba`position
    ensures ba.Valid()
    ensures var end := EndOf(old(ba.View()), rs, start, writer, |rs|);
            && (crashed <==> rs != [] && IsEmptyText(rs[|rs| - 1]) && end == ba.capacity)
            && (!crashed ==> got == rs && ba.position == end)
  {
    hide ByteArray.Valid, Decode, Stored, EndOf, ByteArray.Mem;
    ghost var f := ba.View();
    got := [];
    EndOfNone(f, rs, start, writer);
    for i := 0 to |rs|
      invariant ba.Valid() && got == rs[..i]
      invariant ba.View() == f.(position := EndOf(f, rs, start, writer, i))
      invariant i == |rs| > 0 ==> !(IsEmptyText(rs[i - 1]) && EndOf(f, rs, start, writer, i) == |f.mem|)
    {
      ghost var h := ba.View();
      StoredMoved(f, h, rs, start, writer);
      NextRecord(rs, i, h, start, writer, reader);
      var r := ReadRecord(ba, KindOf(rs[i]), reader);
      StoredMoved(f, h, rs, start, writer);
      if r.NullDereference? {
        return got, true;
      }
      got := got + [r.value];
      assert rs[..i + 1] == rs[..i] + [rs[i]];
    }
    crashed := false;
  }

  lemma EndOfNone(f: Flat, rs: seq<Record>, start: nat, writer: bool)
    requires Stored(f, rs, start, writer)
    ensures AllFit(rs) && EndOf(f, rs, start, writer, 0) == start
  {
  }

  lemma StoredMoved(f: Flat, h: Flat, rs: seq<Record>, start: nat, writer: bool)
    requires Stored(f, rs, start, writer) && FlatOk(h) && h == f.(position := h.position)
    ensures Stored(h, rs, start, writer)
    ensures forall i | 0 <= i <= |rs| :: EndOf(h, rs, start, writer, i) == EndOf(f, rs, start, writer, i)
  {
  }

  /** Writes the records, goes back, and reads them by their types. Every record comes back and the position ends where
      it was after the writes, except in one case: a last record that is an empty string and ends exactly at the end of
      the last block makes the source follow a null cursor. */
  method RoundTrip(ba: ByteArray, rs: seq<Record>, writer: bool, reader: bool) returns (got: seq<Record>, crashed: bool)
    requires ba.Valid() && AllFit(rs)
    modifies ba, ba.nodes, ba.Arrays()
    ensures ba.Valid()
    ensures var bs := EncodeAll(rs, old(ba.littleEndian), writer);
            var end := old(ba.position) + |bs|;
            && (crashed <==> rs != [] && IsEmptyText(rs[|rs| - 1])
                             && end == GrownCapacity(old(ba.capacity), old(ba.position), |bs|, ba.baseSize))
            && (!crashed ==> got == rs && ba.position == end)
  {
    hide FlatWrite, ByteArray.Valid, GrownCapacity, EncodeAll, ByteArray.Mem;
    var start := ba.position;
    ghost var f := ba.View();
    WriteAll(ba, rs, writer);
    ghost var bs := EncodeAll(rs, ba.littleEndian, writer);
    ghost var g := ba.View();
    WroteFacts(f, bs, g, ba.baseSize);
    var ok := ba.SetPosition(start);
    assert rs[..|rs|] == rs;
    got, crashed := ReadBack(ba, rs, start, writer, reader);
  }
}
