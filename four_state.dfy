/** The constants the folder computes with: vectors of 4-state bits (0, 1,
    unknown X, high impedance Z) with a width and a sign flag. The
    conversions between bit vectors and integers are this model's own
    definitions of what the folder asks of its number library: the plain
    binary value of an unsigned vector, the two's-complement value of a
    signed one, and the low `w` bits of an integer. */
module FourState {
  import opened MachineArith

  datatype Bit4 = V0 | V1 | Vx | Vz

  /** A constant: `bits[0]` is the least significant bit and `|bits|` the width. */
  datatype Num = Num(bits: seq<Bit4>, hasSign: bool)

  /** Every number the folder is handed has at least one bit. */
  predicate WellFormed(n: Num)
  {
    |n.bits| >= 1
  }

  predicate IsDefinedBit(b: Bit4)
  {
    b == V0 || b == V1
  }

  /** No bit is X or Z. */
  predicate IsDefined(bits: seq<Bit4>)
  {
    forall i :: 0 <= i < |bits| ==> IsDefinedBit(bits[i])
  }

  function BitValue(b: Bit4): nat
  {
    if b == V1 then 1 else 0
  }

  /** The plain binary value of a defined vector. */
  function UVal(bits: seq<Bit4>): (u: int)
    requires IsDefined(bits)
    ensures 0 <= u < Pow2(|bits|)
  {
    if bits == [] then 0 else BitValue(bits[0]) + 2 * UVal(bits[1..])
  }

  /** The integer a defined constant stands for: two's complement when it
      is signed, plain binary otherwise. */
  function ToInt(n: Num): (v: int)
    requires IsDefined(n.bits)
    ensures !n.hasSign || |n.bits| == 0 ==> 0 <= v < Pow2(|n.bits|)
    ensures n.hasSign && |n.bits| > 0 ==> -Pow2(|n.bits| - 1) <= v < Pow2(|n.bits| - 1)
  {
    var w := |n.bits|;
    assert w > 0 ==> (n.bits[w - 1] == V1 <==> UVal(n.bits) >= Pow2(w - 1)) && Pow2(w) == 2 * Pow2(w - 1) by {
      if w > 0 {
        TopBit(n.bits);
      }
    }
    if n.hasSign && w > 0 && n.bits[w - 1] == V1 then UVal(n.bits) - Pow2(w) else UVal(n.bits)
  }

  /** The low `w` bits of `v` in two's complement. */
  function Encode(v: int, w: nat): (bits: seq<Bit4>)
    decreases w
    ensures |bits| == w && IsDefined(bits)
  {
    if w == 0 then [] else [if v % 2 == 0 then V0 else V1] + Encode(v / 2, w - 1)
  }

  // ---------------------------------------------------------------------
  // Value of a vector

  lemma {:induction false} UValAppend(x: seq<Bit4>, y: seq<Bit4>)
    requires IsDefined(x) && IsDefined(y)
    ensures IsDefined(x + y)
    ensures UVal(x + y) == UVal(x) + Pow2(|x|) * UVal(y)
  {
    if x == [] {
      assert x + y == y;
    } else {
      var p, u := Pow2(|x| - 1), UVal(y);
      assert Pow2(|x|) == 2 * p;
      assert (x + y)[1..] == x[1..] + y;
      UValAppend(x[1..], y);
      assert UVal(x + y) == BitValue(x[0]) + 2 * (UVal(x[1..]) + p * u);
      MulAssoc(2, p, u);
    }
  }

  /** The low `n` bits of a vector hold its value modulo 2^n. */
  lemma UValPrefix(bits: seq<Bit4>, n: nat)
    requires IsDefined(bits) && n <= |bits|
    ensures UVal(bits[..n]) == UVal(bits) % Pow2(n)
  {
    assert bits == bits[..n] + bits[n..];
    UValAppend(bits[..n], bits[n..]);
    DivModUnique(UVal(bits), Pow2(n), UVal(bits[n..]), UVal(bits[..n]));
  }

  /** The top bit of a vector weighs 2^(w-1). */
  lemma TopBitWeight(bits: seq<Bit4>)
    requires IsDefined(bits) && |bits| >= 1
    ensures UVal(bits) == UVal(bits[..|bits| - 1]) + BitValue(bits[|bits| - 1]) * Pow2(|bits| - 1)
  {
    var n := |bits| - 1;
    var low, last := bits[..n], [bits[n]];
    var t, p := BitValue(bits[n]), Pow2(n);
    assert UVal(bits) == UVal(low) + p * t by {
      assert bits == low + last;
      UValAppend(low, last);
      assert UVal(last) == t;
    }
    assert p * t == t * p;
  }

  /** The top bit of a vector is 1 exactly when its value reaches 2^(w-1). */
  lemma TopBit(bits: seq<Bit4>)
    requires IsDefined(bits) && |bits| >= 1
    ensures bits[|bits| - 1] == V1 <==> UVal(bits) >= Pow2(|bits| - 1)
  {
    var n := |bits| - 1;
    TopBitWeight(bits);
    assert UVal(bits[..n]) < Pow2(n);
  }

  // ---------------------------------------------------------------------
  // Encoding an integer

  /** Encoding keeps exactly the value modulo 2^w. */
  lemma {:induction false} EncodeValue(v: int, w: nat)
    decreases w
    ensures UVal(Encode(v, w)) == v % Pow2(w)
  {
    if w == 0 {
      assert Pow2(0) == 1;
    } else {
      var e := Encode(v, w);
      assert e[1..] == Encode(v / 2, w - 1);
      EncodeValue(v / 2, w - 1);
      ModDouble(v, Pow2(w - 1));
    }
  }

  /** Two integers that agree modulo 2^w have the same encoding. */
  lemma {:induction false} EncodeCongruent(v: int, k: int, w: nat)
    decreases w
    ensures Encode(v + k * Pow2(w), w) == Encode(v, w)
  {
    if w > 0 {
      var m := k * Pow2(w - 1);
      assert k * Pow2(w) == 2 * m;
      assert (v + 2 * m) % 2 == v % 2;
      assert (v + 2 * m) / 2 == v / 2 + m;
      EncodeCongruent(v / 2, k, w - 1);
    }
  }

  /** Encoding is the same modulo any multiple 2^W of 2^w. */
  lemma EncodeWide(v: int, k: int, w: nat, wide: nat)
    requires w <= wide
    ensures Encode(v + k * Pow2(wide), w) == Encode(v, w)
  {
    Pow2Add(w, wide - w);
    assert k * Pow2(wide) == (k * Pow2(wide - w)) * Pow2(w);
    EncodeCongruent(v, k * Pow2(wide - w), w);
  }

  /** Decoding then encoding a defined vector gives it back. */
  lemma {:induction false} EncodeUVal(bits: seq<Bit4>)
    requires IsDefined(bits)
    ensures Encode(UVal(bits), |bits|) == bits
  {
    if bits != [] {
      var u := UVal(bits);
      assert u % 2 == BitValue(bits[0]) && u / 2 == UVal(bits[1..]);
      EncodeUVal(bits[1..]);
    }
  }

  /** Encoding a constant's integer at its own width gives its bits back,
      signed or not. */
  lemma EncodeToInt(n: Num)
    requires IsDefined(n.bits)
    ensures Encode(ToInt(n), |n.bits|) == n.bits
  {
    EncodeUVal(n.bits);
    if ToInt(n) != UVal(n.bits) {
      EncodeCongruent(UVal(n.bits), -1, |n.bits|);
    }
  }
}
