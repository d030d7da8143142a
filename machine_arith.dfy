/** Integer facts the constant folder relies on: powers of two, the
    Euclidean division that Dafny's `/` and `%` perform, and the division
    and remainder of C++, which truncate toward zero. */
module MachineArith {

  function Pow2(n: nat): (p: int)
    ensures p >= 1
  {
    if n == 0 then 1 else 2 * Pow2(n - 1)
  }

  lemma {:induction false} Pow2Add(a: nat, b: nat)
    ensures Pow2(a + b) == Pow2(a) * Pow2(b)
  {
    if a > 0 {
      Pow2Add(a - 1, b);
      assert Pow2(a + b) == 2 * Pow2(a - 1 + b);
    }
  }

  lemma Pow2Monotone(a: nat, b: nat)
    requires a <= b
    ensures Pow2(a) <= Pow2(b)
  {
    Pow2Add(a, b - a);
    MulGrows(Pow2(a), Pow2(b - a));
  }

  lemma MulGrows(x: nat, k: nat)
    requires k >= 1
    ensures x <= x * k
  {
  }

  lemma MulAssoc(a: int, b: int, c: int)
    ensures a * (b * c) == (a * b) * c
  {
  }

  /** Euclidean division is determined by its quotient-remainder equation. */
  lemma DivModUnique(a: int, m: int, q: int, r: int)
    requires m > 0 && 0 <= r < m && a == m * q + r
    ensures a / m == q && a % m == r
  {
    var q0, r0 := a / m, a % m;
    assert m * (q - q0) == r0 - r;
    if q > q0 {
      MulGrows(m, q - q0);
      assert false;
    } else if q < q0 {
      MulGrows(m, q0 - q);
      assert false;
    }
  }

  /** The low bit and the rest of a remainder modulo an even modulus. */
  lemma ModDouble(v: int, p: int)
    requires p > 0
    ensures v % (2 * p) == v % 2 + 2 * ((v / 2) % p)
    ensures v / (2 * p) == (v / 2) / p
  {
    var h, b := v / 2, v % 2;
    var q, r := h / p, h % p;
    assert v == 2 * p * q + (2 * r + b);
    DivModUnique(v, 2 * p, q, 2 * r + b);
  }

  /** Scaling a remainder scales the modulus with it. */
  lemma ModScale(a: int, m: int, c: int)
    requires m > 0 && c > 0
    ensures (a % m) * c == (a * c) % (m * c)
  {
    var q, r := a / m, a % m;
    assert a * c == (m * c) * q + r * c;
    assert r * c < m * c;
    DivModUnique(a * c, m * c, q, r * c);
  }

  /** Adding a multiple of the modulus leaves the remainder unchanged. */
  lemma ModShift(a: int, k: int, m: int)
    requires m > 0
    ensures (a + k * m) % m == a % m
  {
    DivModUnique(a + k * m, m, a / m + k, a % m);
  }

  // ---------------------------------------------------------------------
  // C++ `/` and `%`

  function Abs(x: int): nat
  {
    if x < 0 then -x else x
  }

  /** C++ integer division: the quotient truncated toward zero. */
  function TruncDiv(a: int, b: int): (q: int)
    requires b != 0
    ensures Abs(b * q) <= Abs(a) < Abs(b * q) + Abs(b)
    ensures b * q == 0 || ((b * q < 0) <==> (a < 0))
  {
    var q0 := Abs(a) / Abs(b);
    var q := if (a < 0) == (b < 0) then q0 else -q0;
    TruncQuotient(a, b, q0, q);
    q
  }

  lemma TruncQuotient(a: int, b: int, q0: int, q: int)
    requires b != 0 && q0 == Abs(a) / Abs(b)
    requires q == if (a < 0) == (b < 0) then q0 else -q0
    ensures Abs(b * q) <= Abs(a) < Abs(b * q) + Abs(b)
    ensures b * q == 0 || ((b * q < 0) <==> (a < 0))
  {
    var m, aa := Abs(b), Abs(a);
    var p := m * q0;
    assert aa == p + aa % m;
    SignedProduct(b, q0, q, a < 0);
    assert b * q == (if a < 0 then -p else p);
  }

  lemma SignedProduct(b: int, q0: int, q: int, neg: bool)
    requires b != 0 && q0 >= 0
    requires q == if neg == (b < 0) then q0 else -q0
    ensures b * q == if neg then -(Abs(b) * q0) else Abs(b) * q0
  {
    if b < 0 {
      assert Abs(b) == -b;
      if neg {
        assert b * q == -((-b) * q0);
      } else {
        assert b * q == (-b) * q0;
      }
    } else {
      if neg {
        assert b * q == -(b * q0);
      }
    }
  }

  /** C++ remainder: what `a == (a / b) * b + a % b` leaves for it. */
  function TruncMod(a: int, b: int): (r: int)
    requires b != 0
    ensures Abs(r) < Abs(b)
    ensures r == 0 || ((r < 0) <==> (a < 0))
    ensures a == b * TruncDiv(a, b) + r
  {
    a - b * TruncDiv(a, b)
  }
}
