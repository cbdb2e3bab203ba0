/** Machine words as natural numbers: powers of two, wrap-around and the bit operations the codecs use. */
module Words {
  function Pow2(n: nat): (p: nat)
    ensures p > 0
  {
    if n == 0 then 1 else 2 * Pow2(n - 1)
  }

  /** The value kept by an unsigned word of `w` bits. */
  function Wrap(v: int, w: nat): (u: nat)
    ensures u < Pow2(w)
  {
    v % Pow2(w)
  }

  /** The signed reading of a word of `w` bits. */
  function Signed(u: nat, w: nat): int
    requires w > 0 && u < Pow2(w)
  {
    if u < Pow2(w - 1) then u else u - Pow2(w)
  }

  predicate IsSigned(v: int, w: nat)
    requires w > 0
  {
    -(Pow2(w - 1) as int) <= v < Pow2(w - 1)
  }

  /** Bitwise or. */
  function Or(a: nat, b: nat): nat
    decreases a + b
  {
    if a == 0 && b == 0 then 0
    else (if a % 2 == 1 || b % 2 == 1 then 1 else 0) + 2 * Or(a / 2, b / 2)
  }

  /** Bitwise exclusive or of two words of `w` bits. */
  function Xor(a: nat, b: nat, w: nat): nat {
    if w == 0 then 0
    else (if a % 2 != b % 2 then 1 else 0) + 2 * Xor(a / 2, b / 2, w - 1)
  }

  lemma {:induction false} Pow2Add(a: nat, b: nat)
    ensures Pow2(a + b) == Pow2(a) * Pow2(b)
  {
    if a == 0 {
    } else {
      Pow2Add(a - 1, b);
      assert Pow2(a + b) == 2 * Pow2(a - 1 + b);
    }
  }

  lemma Pow32()
    ensures Pow2(32) == 0x1_0000_0000 && Pow2(31) == 0x8000_0000
  {
    assert Pow2(8) == 256;
    Pow2Add(8, 8);
    Pow2Add(16, 16);
  }

  lemma {:induction false} Pow2Mono(a: nat, b: nat)
    requires a <= b
    ensures Pow2(a) <= Pow2(b)
  {
    if a == b {
    } else {
      Pow2Mono(a, b - 1);
    }
  }

  lemma ModSmall(v: nat, p: nat)
    requires v < p
    ensures v % p == v
  {
  }

  lemma ModNegative(v: int, p: nat)
    requires -(p as int) <= v < 0
    ensures v % p == v + p
  {
  }

  lemma HalfPow2(w: nat)
    requires w > 0
    ensures Pow2(w) == 2 * Pow2(w - 1)
  {
  }

  lemma WrapSmall(v: nat, w: nat)
    requires v < Pow2(w)
    ensures Wrap(v, w) == v
  {
    ModSmall(v, Pow2(w));
  }

  lemma WrapMinusOne(w: nat)
    ensures Wrap(-1, w) == Pow2(w) - 1
  {
    ModNegative(-1, Pow2(w));
  }

  lemma {:induction false} OrZero(a: nat)
    ensures Or(a, 0) == a && Or(0, a) == a
  {
    if a == 0 {
    } else {
      OrZero(a / 2);
    }
  }

  lemma OrEven(a: nat, h: nat)
    ensures Or(a, 2 * h) == a % 2 + 2 * Or(a / 2, h)
  {
  }

  lemma MulAssoc(m: nat, i: nat)
    requires i > 0
    ensures m * Pow2(i) == 2 * (m * Pow2(i - 1))
  {
  }

  /** Words with no bit in common: or-ing them adds them. */
  lemma {:induction false} OrDisjoint(a: nat, m: nat, i: nat)
    requires a < Pow2(i)
    ensures Or(a, m * Pow2(i)) == a + m * Pow2(i)
  {
    if i == 0 {
      OrZero(m);
    } else {
      OrDisjoint(a / 2, m, i - 1);
      MulAssoc(m, i);
      OrEven(a, m * Pow2(i - 1));
    }
  }

  lemma {:induction false} XorZeros(a: nat, w: nat)
    requires a < Pow2(w)
    ensures Xor(a, 0, w) == a
  {
    if w == 0 {
    } else {
      XorZeros(a / 2, w - 1);
    }
  }

  lemma {:induction false} XorOnes(a: nat, w: nat)
    requires a < Pow2(w)
    ensures Xor(a, Pow2(w) - 1, w) == Pow2(w) - 1 - a
  {
    if w == 0 {
    } else {
      XorOnes(a / 2, w - 1);
      assert (Pow2(w) - 1) / 2 == Pow2(w - 1) - 1 && (Pow2(w) - 1) % 2 == 1;
    }
  }
}

/** The zigzag map between signed and unsigned words, in arithmetic modulo 2^w. */
module Zigzag {
  import opened Words

  function Encode(v: int, w: nat): nat
    requires w > 0 && IsSigned(v, w)
  {
    if v < 0 then Wrap(Wrap(-v, w) * 2 - 1, w) else Wrap(v * 2, w)
  }

  function Decode(u: nat, w: nat): int
    requires w > 0 && u < Pow2(w)
  {
    Signed(Wrap(Xor(u / 2, Wrap(-(u % 2), w), w), w), w)
  }

  lemma EncodeValue(v: int, w: nat)
    requires w > 1 && IsSigned(v, w)
    ensures Encode(v, w) == if v < 0 then -2 * v - 1 else 2 * v
  {
    hide Pow2, Wrap;
    HalfPow2(w);
    if v < 0 {
      WrapSmall(-v, w);
      WrapSmall(-v * 2 - 1, w);
    } else {
      WrapSmall(v * 2, w);
    }
  }

  lemma DecodeOdd(h: nat, w: nat)
    requires w > 0 && h < Pow2(w - 1)
    ensures 2 * h + 1 < Pow2(w) && Decode(2 * h + 1, w) == -(h as int) - 1
  {
    hide Pow2, Xor, Wrap;
    HalfPow2(w);
    assert (2 * h + 1) / 2 == h && (2 * h + 1) % 2 == 1;
    WrapMinusOne(w);
    XorOnes(h, w);
    WrapSmall(Pow2(w) - 1 - h, w);
  }

  lemma DecodeEven(h: nat, w: nat)
    requires w > 0 && h < Pow2(w - 1)
    ensures 2 * h < Pow2(w) && Decode(2 * h, w) == h
  {
    hide Pow2, Xor, Wrap;
    HalfPow2(w);
    assert (2 * h) / 2 == h && (2 * h) % 2 == 0;
    WrapSmall(0, w);
    XorZeros(h, w);
    WrapSmall(h, w);
  }

  lemma DecodeValue(u: nat, w: nat)
    requires w > 1 && u < Pow2(w)
    ensures Decode(u, w) == if u % 2 == 1 then -(u / 2) - 1 else u / 2
    ensures IsSigned(Decode(u, w), w)
  {
    hide Decode;
    HalfPow2(w);
    if u % 2 == 1 {
      DecodeOdd(u / 2, w);
    } else {
      DecodeEven(u / 2, w);
    }
  }

  /** Decoding undoes encoding for every signed word. */
  lemma DecodeEncode(v: int, w: nat)
    requires w > 1 && IsSigned(v, w)
    ensures Decode(Encode(v, w), w) == v
  {
    hide Encode, Decode;
    EncodeValue(v, w);
    DecodeValue(Encode(v, w), w);
  }

  /** Encoding undoes decoding for every unsigned word, so the map is a bijection. */
  lemma EncodeDecode(u: nat, w: nat)
    requires w > 1 && u < Pow2(w)
    ensures IsSigned(Decode(u, w), w) && Encode(Decode(u, w), w) == u
  {
    hide Encode, Decode;
    DecodeValue(u, w);
    EncodeValue(Decode(u, w), w);
  }
}
