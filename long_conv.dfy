/** What the folder's arithmetic asks of its number library on a 64-bit
    target: reading a constant as a C++ `long` or `unsigned long`, and
    building a constant of a given width from an `unsigned long`. The
    library itself is not part of this model; these are this model's
    definitions of those three conversions. */
module LongConv {
  import opened MachineArith
  import opened FourState

  const TwoTo63: int := 0x8000_0000_0000_0000
  const TwoTo64: int := 0x1_0000_0000_0000_0000

  lemma LongPowers()
    ensures Pow2(63) == TwoTo63 && Pow2(64) == TwoTo64
  {
    assert Pow2(4) == 0x10;
    assert Pow2(8) == 0x100;
    assert Pow2(12) == 0x1000;
    assert Pow2(16) == 0x10000;
    assert Pow2(20) == 0x100000;
    assert Pow2(24) == 0x1000000;
    assert Pow2(28) == 0x10000000;
    assert Pow2(32) == 0x100000000;
    assert Pow2(36) == 0x1000000000;
    assert Pow2(40) == 0x10000000000;
    assert Pow2(44) == 0x100000000000;
    assert Pow2(48) == 0x1000000000000;
    assert Pow2(52) == 0x10000000000000;
    assert Pow2(56) == 0x100000000000000;
    assert Pow2(60) == 0x1000000000000000;
  }

  /** A 64-bit two's-complement `long` holds the integer. */
  predicate FitsLong(x: int)
  {
    -TwoTo63 <= x < TwoTo63
  }

  /** The value an integer takes once stored in a 64-bit two's-complement
      `long`: the one in [-2^63, 2^63) congruent to it modulo 2^64. */
  function Wrap64(x: int): (y: int)
    ensures FitsLong(y)
    ensures FitsLong(x) ==> y == x
  {
    Reduce(x, TwoTo63, TwoTo64)
  }

  /** The value an integer takes once converted to a 64-bit `unsigned long`:
      the one in [0, 2^64) congruent to it modulo 2^64. */
  function ULong(x: int): (u: int)
    ensures 0 <= u < TwoTo64
    ensures 0 <= x < TwoTo64 ==> u == x
    ensures u == x % TwoTo64
  {
    Reduce(x, 0, TwoTo64)
  }

  /** The integer in [-h, m - h) congruent to `x` modulo `m`. */
  function Reduce(x: int, h: int, m: int): (y: int)
    requires 0 <= h < m
    ensures -h <= y < m - h
    ensures -h <= x < m - h ==> y == x
  {
    Window(x, h, m);
    (x + h) % m - h
  }

  lemma Window(x: int, h: int, m: int)
    requires 0 <= h < m
    ensures -h <= (x + h) % m - h < m - h
    ensures (x + h) % m - h == x + (-((x + h) / m)) * m
    ensures -h <= x < m - h ==> (x + h) % m - h == x
  {
    if -h <= x < m - h {
      DivModUnique(x + h, m, 0, x + h);
    }
  }

  /** Reduction adds a multiple of the modulus. */
  lemma ReduceOffset(x: int, h: int, m: int) returns (k: int)
    requires 0 <= h < m
    ensures Reduce(x, h, m) == x + k * m
  {
    Window(x, h, m);
    k := -((x + h) / m);
  }

  /** `as_long`: a defined constant's integer, held in a `long`. */
  function AsLong(n: Num): (v: int)
    requires IsDefined(n.bits)
    ensures FitsLong(v)
    ensures FitsLong(ToInt(n)) ==> v == ToInt(n)
  {
    Wrap64(ToInt(n))
  }

  /** A `long` read of a constant differs from its integer by a multiple
      of 2^64. */
  lemma AsLongOffset(n: Num) returns (k: int)
    requires IsDefined(n.bits)
    ensures AsLong(n) == ToInt(n) + k * TwoTo64
  {
    k := ReduceOffset(ToInt(n), TwoTo63, TwoTo64);
  }

  /** `as_ulong`: a defined constant's plain binary value, held in an
      `unsigned long`. The sign flag plays no part. */
  function AsULong(n: Num): (v: int)
    requires IsDefined(n.bits)
    ensures v == UVal(n.bits) % TwoTo64
    ensures |n.bits| <= 64 ==> v == UVal(n.bits)
  {
    assert |n.bits| <= 64 ==> UVal(n.bits) < TwoTo64 by {
      if |n.bits| <= 64 {
        Pow2Monotone(|n.bits|, 64);
        LongPowers();
      }
    }
    ULong(UVal(n.bits))
  }

  /** The constant of width `w` built from an `unsigned long`: its low `w`
      bits, unsigned. At widths up to 64 nothing but the low `w` bits of
      the original integer survives. */
  function FromULong(v: int, w: nat): (n: Num)
    ensures |n.bits| == w && IsDefined(n.bits) && !n.hasSign
    ensures w <= 64 ==> n.bits == Encode(v, w)
  {
    assert w <= 64 ==> Encode(ULong(v), w) == Encode(v, w) by {
      if w <= 64 {
        var k := ReduceOffset(v, 0, TwoTo64);
        LongPowers();
        EncodeWide(v, k, w, 64);
      }
    }
    Num(Encode(ULong(v), w), false)
  }

  /** Two integers that differ by a multiple of 2^64 give the same constant. */
  lemma FromULongCongruent(x: int, e: int, k: int, w: nat)
    requires w <= 64 && x == e + k * TwoTo64
    ensures FromULong(x, w) == Num(Encode(e, w), false)
  {
    assert Encode(x, w) == Encode(e, w) by {
      LongPowers();
      EncodeWide(e, k, w, 64);
    }
  }
}
