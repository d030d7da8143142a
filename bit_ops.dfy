/** The two bit-level operations the folder performs itself: the left shift
    at fixed width (eval.cc, the `'l'` case of the binary folder) and the
    two's-complement negation of unary minus. Each is a pure specification
    function with lemmas giving its meaning on defined vectors, and a method
    that builds the result in an array the way the folder does, proved equal
    to the function. */
module BitOps {
  import opened MachineArith
  import opened FourState

  function Zeros(n: nat): seq<Bit4>
  {
    seq(n, _ => V0)
  }

  // ---------------------------------------------------------------------
  // Left shift

  /** Shift toward the high end by `k`, keeping the width: the low `k` bits
      become 0 and the bits moved past the top are dropped. */
  function ShiftedBits(bits: seq<Bit4>, k: nat): (r: seq<Bit4>)
    ensures |r| == |bits|
  {
    if k >= |bits| then Zeros(|bits|) else Zeros(k) + bits[..|bits| - k]
  }

  /** Bit by bit: a shift by the width or more clears every bit; otherwise
      bit `i` lands at `i + k` unchanged, X and Z included, and the `k` low
      bits are 0. */
  lemma ShiftedBitsAt(bits: seq<Bit4>, k: nat)
    ensures k >= |bits| ==> forall i :: 0 <= i < |bits| ==> ShiftedBits(bits, k)[i] == V0
    ensures k < |bits| ==> forall i :: 0 <= i < k ==> ShiftedBits(bits, k)[i] == V0
    ensures k < |bits| ==> forall i :: 0 <= i < |bits| - k ==> ShiftedBits(bits, k)[i + k] == bits[i]
  {
  }

  lemma {:induction false} UValZeros(n: nat)
    ensures IsDefined(Zeros(n)) && UVal(Zeros(n)) == 0
  {
    if n > 0 {
      assert Zeros(n)[1..] == Zeros(n - 1);
      UValZeros(n - 1);
    }
  }

  /** On a defined vector the shift multiplies by 2^k modulo 2^width. */
  lemma ShiftedValue(bits: seq<Bit4>, k: nat)
    requires IsDefined(bits)
    ensures IsDefined(ShiftedBits(bits, k))
    ensures UVal(ShiftedBits(bits, k)) == (UVal(bits) * Pow2(k)) % Pow2(|bits|)
  {
    if k >= |bits| {
      ShiftedOut(bits, k);
    } else {
      ShiftedIn(bits, k);
    }
  }

  lemma ShiftedOut(bits: seq<Bit4>, k: nat)
    requires IsDefined(bits) && k >= |bits|
    ensures IsDefined(ShiftedBits(bits, k))
    ensures UVal(ShiftedBits(bits, k)) == (UVal(bits) * Pow2(k)) % Pow2(|bits|)
  {
    var w, u := |bits|, UVal(bits);
    UValZeros(w);
    var m := u * Pow2(k - w);
    assert u * Pow2(k) == m * Pow2(w) by {
      Pow2Add(w, k - w);
      MulAssoc(u, Pow2(k - w), Pow2(w));
      assert Pow2(k - w) * Pow2(w) == Pow2(w) * Pow2(k - w);
    }
    ModShift(0, m, Pow2(w));
  }

  lemma ShiftedIn(bits: seq<Bit4>, k: nat)
    requires IsDefined(bits) && k < |bits|
    ensures IsDefined(ShiftedBits(bits, k))
    ensures UVal(ShiftedBits(bits, k)) == (UVal(bits) * Pow2(k)) % Pow2(|bits|)
  {
    var w, u := |bits|, UVal(bits);
    var low := bits[..w - k];
    var a, b := Pow2(k), Pow2(w - k);
    assert UVal(ShiftedBits(bits, k)) == a * UVal(low) by {
      UValZeros(k);
      UValAppend(Zeros(k), low);
    }
    assert UVal(low) == u % b by { UValPrefix(bits, w - k); }
    assert b * a == Pow2(w) by { Pow2Add(w - k, k); }
    ScaledRemainder(u, UVal(low), a, b, Pow2(w));
  }

  lemma ScaledRemainder(u: int, low: int, a: int, b: int, m: int)
    requires a > 0 && b > 0 && m == b * a && low == u % b
    ensures a * low == (u * a) % m
  {
    ModScale(u, b, a);
  }

  /** The shift loop of the binary folder: a zero-filled result of the
      operand's width receives operand bit `idx` at `idx + k`. */
  method ShiftLeft(bits: seq<Bit4>, k: nat) returns (r: seq<Bit4>)
    ensures r == ShiftedBits(bits, k)
  {
    var res := new Bit4[|bits|](_ => V0);
    if k < res.Length {
      var cnt := res.Length - k;
      for idx := 0 to cnt
        invariant forall j :: 0 <= j < k ==> res[j] == V0
        invariant forall j :: k <= j < k + idx ==> res[j] == bits[j - k]
        invariant forall j :: k + idx <= j < res.Length ==> res[j] == V0
      {
        res[idx + k] := bits[idx];
      }
    }
    r := res[..];
    ShiftedBitsAt(bits, k);
    assert forall j :: 0 <= j < |r| ==> r[j] == ShiftedBits(bits, k)[j] by {
      forall j | 0 <= j < |r|
        ensures r[j] == ShiftedBits(bits, k)[j]
      {
        if k < |bits| && j >= k {
          assert ShiftedBits(bits, k)[(j - k) + k] == bits[j - k];
        }
      }
    }
  }

  // ---------------------------------------------------------------------
  // Two's-complement negation

  /** 4-state complement: 0 and 1 swap, X and Z give X. */
  function Not4(b: Bit4): Bit4
  {
    match b
    case V0 => V1
    case V1 => V0
    case _ => Vx
  }

  function Complement(bits: seq<Bit4>): (r: seq<Bit4>)
    ensures |r| == |bits|
  {
    seq(|bits|, i requires 0 <= i < |bits| => Not4(bits[i]))
  }

  /** Sum bit of a half adder; unknown if either input is X or Z. */
  function SumBit(a: Bit4, c: Bit4): Bit4
  {
    if IsDefinedBit(a) && IsDefinedBit(c) then (if a == c then V0 else V1) else Vx
  }

  /** Carry bit of a half adder; unknown if either input is X or Z. */
  function CarryBit(a: Bit4, c: Bit4): Bit4
  {
    if IsDefinedBit(a) && IsDefinedBit(c) then (if a == V1 && c == V1 then V1 else V0) else Vx
  }

  /** Adds the carry `c` in at bit 0 and drops the carry out of the top bit. */
  function AddCarry(bits: seq<Bit4>, c: Bit4): (r: seq<Bit4>)
    ensures |r| == |bits|
  {
    if bits == [] then [] else [SumBit(bits[0], c)] + AddCarry(bits[1..], CarryBit(bits[0], c))
  }

  /** Unary minus: zero-extend by one bit, complement, add 1. */
  function NegBits(bits: seq<Bit4>): (r: seq<Bit4>)
    ensures |r| == |bits| + 1
  {
    AddCarry(Complement(bits + [V0]), V1)
  }

  /** On a defined vector of width w the complement is 2^w - 1 minus it. */
  lemma {:induction false} ComplementValue(bits: seq<Bit4>)
    requires IsDefined(bits)
    ensures IsDefined(Complement(bits))
    ensures UVal(Complement(bits)) == Pow2(|bits|) - 1 - UVal(bits)
  {
    if bits != [] {
      assert Complement(bits)[1..] == Complement(bits[1..]);
      ComplementValue(bits[1..]);
    }
  }

  /** Adding a defined carry into a defined vector adds its value, modulo
      2^width. */
  lemma {:induction false} AddCarryValue(bits: seq<Bit4>, c: Bit4)
    requires IsDefined(bits) && IsDefinedBit(c)
    ensures IsDefined(AddCarry(bits, c))
    ensures UVal(AddCarry(bits, c)) == (UVal(bits) + BitValue(c)) % Pow2(|bits|)
  {
    if bits == [] {
      assert Pow2(0) == 1;
    } else {
      var b, cv := BitValue(bits[0]), BitValue(c);
      var rest, carry := bits[1..], CarryBit(bits[0], c);
      var sum, tail := AddCarry(bits, c), AddCarry(rest, carry);
      AddCarryValue(rest, carry);
      var u, p := UVal(rest), Pow2(|rest|);
      assert sum[0] == SumBit(bits[0], c) && sum[1..] == tail;
      assert UVal(sum) == (b + cv) % 2 + 2 * UVal(tail);
      assert UVal(bits) == b + 2 * u && Pow2(|bits|) == 2 * p;
      assert UVal(tail) == ((b + cv) / 2 + u) % p;
      HalfAdderMod(b, cv, u, p);
    }
  }

  /** A half-adder step on integers: the low bit of `b + c` stays, its carry
      joins the rest. */
  lemma HalfAdderMod(b: int, c: int, r: int, p: int)
    requires p > 0 && 0 <= b <= 1 && 0 <= c <= 1
    ensures (b + 2 * r + c) % (2 * p) == (b + c) % 2 + 2 * (((b + c) / 2 + r) % p)
  {
    var x := b + c + 2 * r;
    assert x % 2 == (b + c) % 2 && x / 2 == (b + c) / 2 + r;
    ModDouble(x, p);
  }

  /** Read back as a signed number of width w + 1, the negation of a
      defined vector is minus its unsigned value. */
  lemma NegValue(bits: seq<Bit4>)
    requires IsDefined(bits)
    ensures IsDefined(NegBits(bits))
    ensures ToInt(Num(NegBits(bits), true)) == -UVal(bits)
  {
    var neg := NegBits(bits);
    NegUValue(bits);
    assert |neg| - 1 == |bits|;
    TopBit(neg);
  }

  /** Unsigned, the negation of a defined value u of width w is
      2^(w+1) - u modulo 2^(w+1). */
  lemma NegUValue(bits: seq<Bit4>)
    requires IsDefined(bits)
    ensures IsDefined(NegBits(bits))
    ensures UVal(NegBits(bits)) == if UVal(bits) == 0 then 0 else Pow2(|bits| + 1) - UVal(bits)
  {
    var c, u, p := Complement(bits + [V0]), UVal(bits), Pow2(|bits| + 1);
    ComplementExtended(bits);
    IncrementValue(c, u, p);
  }

  /** The complement of the zero-extended operand: 2^(w+1) - 1 - u. */
  lemma ComplementExtended(bits: seq<Bit4>)
    requires IsDefined(bits)
    ensures IsDefined(Complement(bits + [V0]))
    ensures UVal(Complement(bits + [V0])) == Pow2(|bits| + 1) - 1 - UVal(bits)
    ensures |Complement(bits + [V0])| == |bits| + 1 && UVal(bits) < Pow2(|bits| + 1)
  {
    UValZeroExtend(bits);
    ComplementValue(bits + [V0]);
  }

  lemma ComplementRemainder(p: int, u: int)
    requires 0 <= u < p
    ensures (p - 1 - u + 1) % p == if u == 0 then 0 else p - u
  {
    if u == 0 {
      DivModUnique(p, p, 1, 0);
    } else {
      DivModUnique(p - u, p, 0, p - u);
    }
  }

  /** Adding 1 to the complement of u at modulus p gives p - u modulo p. */
  lemma IncrementValue(c: seq<Bit4>, u: int, p: int)
    requires IsDefined(c) && UVal(c) == p - 1 - u && Pow2(|c|) == p && 0 <= u < p
    ensures IsDefined(AddCarry(c, V1))
    ensures UVal(AddCarry(c, V1)) == if u == 0 then 0 else p - u
  {
    AddCarryValue(c, V1);
    ComplementRemainder(p, u);
  }

  lemma UValZeroExtend(bits: seq<Bit4>)
    requires IsDefined(bits)
    ensures IsDefined(bits + [V0]) && UVal(bits + [V0]) == UVal(bits)
  {
    var zero := [V0];
    assert UVal(zero) == 0;
    UValAppend(bits, zero);
    assert Pow2(|bits|) * UVal(zero) == 0;
  }

  /** One step of the complement-and-add loop of `Negate`. */
  lemma AddCarryStep(done: seq<Bit4>, rest: seq<Bit4>, carry: Bit4)
    requires rest != []
    ensures done + AddCarry(Complement(rest), carry)
         == (done + [SumBit(Not4(rest[0]), carry)]) + AddCarry(Complement(rest[1..]), CarryBit(Not4(rest[0]), carry))
  {
    assert Complement(rest)[1..] == Complement(rest[1..]);
  }

  /** The unary-minus computation of the folder: copy the operand into a
      zero-filled vector one bit wider, then complement it and add 1. */
  method Negate(bits: seq<Bit4>) returns (r: seq<Bit4>)
    ensures r == NegBits(bits)
  {
    var tmp := new Bit4[|bits| + 1](_ => V0);
    for idx := 0 to |bits|
      invariant tmp[..idx] == bits[..idx]
      invariant forall j :: idx <= j < tmp.Length ==> tmp[j] == V0
    {
      tmp[idx] := bits[idx];
    }
    assert tmp[..] == bits + [V0];
    ghost var ext := tmp[..];
    var carry := V1;
    for idx := 0 to tmp.Length
      invariant tmp[idx..] == ext[idx..]
      invariant tmp[..idx] + AddCarry(Complement(ext[idx..]), carry) == NegBits(bits)
    {
      assert ext[idx..][0] == tmp[idx] && ext[idx..][1..] == ext[idx + 1..];
      ghost var done := tmp[..idx];
      AddCarryStep(done, ext[idx..], carry);
      var b := Not4(tmp[idx]);
      tmp[idx] := SumBit(b, carry);
      carry := CarryBit(b, carry);
      assert tmp[..idx + 1] == done + [tmp[idx]];
    }
    r := tmp[..];
  }
}
