/** The constant-expression folder of the parse tree (eval.cc): a recursive
    walk that reduces an expression to a constant, or gives up. The source
    gives up by returning a null pointer; the model returns `Failed` with a
    tag saying why, so that the cases can be told apart in the lemmas. */
module ConstEval {
  import opened MachineArith
  import opened FourState
  import opened LongConv
  import opened BitOps

  /** The expression kinds the folder knows, plus `Other` for every kind
      that relies on the default folder (concatenations, strings, function
      calls, ...). `op` is the operator character of the parse tree; the
      left shift is `'l'`. An identifier carries whether it was written with
      a bit or part select. */
  datatype Expr =
    | Binary(op: char, left: Expr, right: Expr)
    | Unary(op: char, operand: Expr)
    | Ternary(cond: Expr, onTrue: Expr, onFalse: Expr)
    | Ident(name: string, hasSelect: bool)
    | Number(value: Num)
    | Other(kind: string)

  /** What a parameter lookup finds: a parameter whose value is not yet
      known, or a constant. A name that is not in the scope is not found. */
  datatype Param = Unresolved | Constant(value: Num)

  type Scope = map<string, Param>

  /** Why an expression did not fold. The source returns null for the
      first three, stops the compiler on a failed `assert` for the next two,
      and has undefined behaviour for the last. */
  datatype Failure =
    | NotConstant
    | UnsupportedOperator
    | UnresolvedParameter(name: string)
    | UndefinedOperand
    | SelectUnsupported
    | DivisionUndefined

  datatype Outcome = Folded(value: Num) | Failed(why: Failure)

  predicate IsArithmetic(op: char)
  {
    op == '+' || op == '-' || op == '*' || op == '/' || op == '%'
  }

  /** Every literal of the expression has at least one bit. */
  predicate LiteralsWellFormed(e: Expr)
  {
    match e
    case Binary(_, left, right) => LiteralsWellFormed(left) && LiteralsWellFormed(right)
    case Unary(_, operand) => LiteralsWellFormed(operand)
    case Ternary(cond, onTrue, onFalse) =>
      LiteralsWellFormed(cond) && LiteralsWellFormed(onTrue) && LiteralsWellFormed(onFalse)
    case Number(value) => WellFormed(value)
    case _ => true
  }

  /** Every constant parameter of the scope has at least one bit. */
  predicate ScopeWellFormed(scope: Scope)
  {
    forall name :: name in scope && scope[name].Constant? ==> WellFormed(scope[name].value)
  }

  // ---------------------------------------------------------------------
  // The folder

  /** `eval_const` over the expression tree. Operands are folded left to
      right and the first failure is returned. A constant folded from
      well-formed literals and parameters is well-formed. */
  function Eval(e: Expr, scope: Scope): (r: Outcome)
    ensures LiteralsWellFormed(e) && ScopeWellFormed(scope) && r.Folded? ==> WellFormed(r.value)
  {
    match e
    case Binary(op, left, right) =>
      var lhs := Eval(left, scope);
      if lhs.Failed? then lhs
      else
        var rhs := Eval(right, scope);
        if rhs.Failed? then rhs else ApplyBinary(op, lhs.value, rhs.value)
    case Unary(op, operand) =>
      var v := Eval(operand, scope);
      if v.Failed? then v else ApplyUnary(op, v.value)
    case Ternary(cond, onTrue, onFalse) =>
      var t := Eval(cond, scope);
      if t.Failed? then t
      else if |t.value.bits| == 0 then Failed(NotConstant)
      else if t.value.bits[0] == V0 then Eval(onFalse, scope)
      else if t.value.bits[0] == V1 then Eval(onTrue, scope)
      else Failed(NotConstant)
    case Ident(name, hasSelect) => EvalIdent(name, hasSelect, scope)
    case Number(value) => Folded(value)
    case Other(_) => Failed(NotConstant)
  }

  /** An identifier folds only when it names a parameter whose value is a
      constant; the folder does not handle selects. */
  function EvalIdent(name: string, hasSelect: bool, scope: Scope): (r: Outcome)
    ensures r.Folded? <==> name in scope && !hasSelect && scope[name].Constant?
    ensures r.Folded? ==> r.value == scope[name].value
  {
    if name !in scope then Failed(NotConstant)
    else if hasSelect then Failed(SelectUnsupported)
    else match scope[name]
      case Unresolved => Failed(UnresolvedParameter(name))
      case Constant(value) => Folded(value)
  }

  /** The integer `+`, `-` or `*`. */
  function Arith(op: char, a: int, b: int): int
  {
    if op == '+' then a + b else if op == '-' then a - b else a * b
  }

  /** The C++ `/` (truncating quotient) or `%` (its remainder). */
  function Divide(op: char, a: int, b: int): int
    requires b != 0
  {
    if op == '/' then TruncDiv(a, b) else TruncMod(a, b)
  }

  /** The binary operator applied to two folded operands. The result always
      has the left operand's width and no sign; the arithmetic operators
      need both operands free of X and Z, the shift only its amount. */
  function ApplyBinary(op: char, l: Num, r: Num): (res: Outcome)
    ensures res.Folded? ==> |res.value.bits| == |l.bits| && !res.value.hasSign
    ensures res.Folded? && IsArithmetic(op) ==> IsDefined(res.value.bits)
    ensures res == Failed(UnsupportedOperator) <==> !IsArithmetic(op) && op != 'l'
    ensures res == Failed(UndefinedOperand) <==>
              (IsArithmetic(op) && !(IsDefined(l.bits) && IsDefined(r.bits)))
              || (op == 'l' && !IsDefined(r.bits))
  {
    var w := |l.bits|;
    if IsArithmetic(op) then
      if !IsDefined(l.bits) || !IsDefined(r.bits) then Failed(UndefinedOperand)
      else
        var lv, rv := AsLong(l), AsLong(r);
        if op == '+' || op == '-' || op == '*' then Folded(FromULong(Arith(op, lv, rv), w))
        else if rv == 0 || (lv == -TwoTo63 && rv == -1) then Failed(DivisionUndefined)
        else Folded(FromULong(Divide(op, lv, rv), w))
    else if op == 'l' then
      if !IsDefined(r.bits) then Failed(UndefinedOperand)
      else Folded(Num(ShiftedBits(l.bits, AsULong(r)), false))
    else Failed(UnsupportedOperator)
  }

  /** Unary `+` and `-` applied to a folded operand; any other unary
      operator does not fold. */
  function ApplyUnary(op: char, v: Num): (res: Outcome)
    ensures res.Folded? <==> op == '+' || op == '-'
    ensures res.Failed? ==> res.why == UnsupportedOperator
    ensures op == '-' ==> |res.value.bits| == |v.bits| + 1 && res.value.hasSign
  {
    if op == '+' then Folded(v)
    else if op == '-' then Folded(Num(NegBits(v.bits), true))
    else Failed(UnsupportedOperator)
  }

  /** The folder as the compiler runs it: the same walk, with the shift and
      the negation computed bit by bit in a buffer. */
  method EvalConst(e: Expr, scope: Scope) returns (r: Outcome)
    ensures r == Eval(e, scope)
  {
    match e
    case Binary(op, left, right) =>
      var lhs := EvalConst(left, scope);
      if lhs.Failed? {
        return lhs;
      }
      var rhs := EvalConst(right, scope);
      if rhs.Failed? {
        return rhs;
      }
      if op == 'l' && IsDefined(rhs.value.bits) {
        var bits := ShiftLeft(lhs.value.bits, AsULong(rhs.value));
        r := Folded(Num(bits, false));
      } else {
        r := ApplyBinary(op, lhs.value, rhs.value);
      }
    case Unary(op, operand) =>
      var v := EvalConst(operand, scope);
      if v.Failed? {
        return v;
      }
      if op == '-' {
        var bits := Negate(v.value.bits);
        r := Folded(Num(bits, true));
      } else {
        r := ApplyUnary(op, v.value);
      }
    case Ternary(cond, onTrue, onFalse) =>
      var t := EvalConst(cond, scope);
      if t.Failed? {
        return t;
      }
      if |t.value.bits| == 0 {
        return Failed(NotConstant);
      }
      var bit := t.value.bits[0];
      if bit == V0 {
        r := EvalConst(onFalse, scope);
      } else if bit == V1 {
        r := EvalConst(onTrue, scope);
      } else {
        r := Failed(NotConstant);
      }
    case Ident(name, hasSelect) =>
      r := EvalIdent(name, hasSelect, scope);
    case Number(value) =>
      r := Folded(value);
    case Other(_) =>
      r := Failed(NotConstant);
  }

  // ---------------------------------------------------------------------
  // What the folder does, kind by kind

  /** A kind without a folder of its own never folds. */
  lemma DefaultNeverFolds(kind: string, scope: Scope)
    ensures Eval(Other(kind), scope) == Failed(NotConstant)
  {
  }

  /** A binary expression folds only when both operands fold; a failing
      left operand is reported before the right one is looked at. */
  lemma BinaryNeedsBothOperands(op: char, left: Expr, right: Expr, scope: Scope)
    ensures Eval(left, scope).Failed? ==> Eval(Binary(op, left, right), scope) == Eval(left, scope)
    ensures Eval(left, scope).Folded? && Eval(right, scope).Failed? ==>
              Eval(Binary(op, left, right), scope) == Eval(right, scope)
    ensures Eval(Binary(op, left, right), scope).Folded? ==>
              Eval(left, scope).Folded? && Eval(right, scope).Folded? && (IsArithmetic(op) || op == 'l')
  {
  }

  /** The ternary operator looks only at bit 0 of its condition: 0 picks
      the false branch, 1 the true branch, X or Z fails even when both
      branches are constants. */
  lemma TernarySelects(cond: Expr, onTrue: Expr, onFalse: Expr, scope: Scope)
    requires Eval(cond, scope).Folded? && |Eval(cond, scope).value.bits| >= 1
    ensures Eval(cond, scope).value.bits[0] == V0 ==> Eval(Ternary(cond, onTrue, onFalse), scope) == Eval(onFalse, scope)
    ensures Eval(cond, scope).value.bits[0] == V1 ==> Eval(Ternary(cond, onTrue, onFalse), scope) == Eval(onTrue, scope)
    ensures !IsDefinedBit(Eval(cond, scope).value.bits[0]) ==>
              Eval(Ternary(cond, onTrue, onFalse), scope) == Failed(NotConstant)
  {
  }

  /** A parameter that is not found, or not yet resolved, does not fold; a
      constant parameter folds to its value. */
  lemma IdentifierLookup(name: string, value: Num, scope: Scope)
    ensures name !in scope ==> Eval(Ident(name, false), scope) == Failed(NotConstant)
    ensures name in scope && scope[name] == Unresolved ==>
              Eval(Ident(name, false), scope) == Failed(UnresolvedParameter(name))
    ensures name in scope && scope[name] == Constant(value) ==> Eval(Ident(name, false), scope) == Folded(value)
  {
  }

  /** A literal folds to its own value, width and sign flag included. */
  lemma NumberFoldsToItself(value: Num, scope: Scope)
    ensures Eval(Number(value), scope) == Folded(value)
  {
  }

  /** Unary `+` is the identity, sign flag included. */
  lemma UnaryPlusIdentity(operand: Expr, scope: Scope)
    ensures Eval(Unary('+', operand), scope) == Eval(operand, scope)
  {
  }

  // ---------------------------------------------------------------------
  // Arithmetic

  /** For `+`, `-` and `*` on defined operands, when the left operand is at
      most 64 bits wide, the folded result is the exact result on the
      operands' integers, wrapped to the left operand's width. Going
      through a C++ `long` loses nothing at these widths. */
  lemma ArithmeticWraps(op: char, l: Num, r: Num)
    requires op == '+' || op == '-' || op == '*'
    requires IsDefined(l.bits) && IsDefined(r.bits) && |l.bits| <= 64
    ensures ApplyBinary(op, l, r) == Folded(Num(Encode(Arith(op, ToInt(l), ToInt(r)), |l.bits|), false))
    ensures UVal(ApplyBinary(op, l, r).value.bits) == Arith(op, ToInt(l), ToInt(r)) % Pow2(|l.bits|)
  {
    var w := |l.bits|;
    var x, e := Arith(op, AsLong(l), AsLong(r)), Arith(op, ToInt(l), ToInt(r));
    assert ApplyBinary(op, l, r) == Folded(FromULong(x, w));
    var k := ExactOffset(op, l, r);
    FromULongCongruent(x, e, k, w);
    EncodeValue(e, w);
  }

  /** Going through `long` changes the exact result by a multiple of 2^64. */
  lemma ExactOffset(op: char, l: Num, r: Num) returns (k: int)
    requires IsDefined(l.bits) && IsDefined(r.bits)
    ensures Arith(op, AsLong(l), AsLong(r)) == Arith(op, ToInt(l), ToInt(r)) + k * TwoTo64
  {
    var k1 := AsLongOffset(l);
    var k2 := AsLongOffset(r);
    k := OffsetIdentity(op, ToInt(l), ToInt(r), AsLong(l), AsLong(r), k1, k2, TwoTo64);
  }

  lemma OffsetIdentity(op: char, a: int, b: int, x: int, y: int, k1: int, k2: int, m: int) returns (k: int)
    requires x == a + k1 * m && y == b + k2 * m
    ensures Arith(op, x, y) == Arith(op, a, b) + k * m
  {
    if op == '+' {
      k := k1 + k2;
    } else if op == '-' {
      k := k1 - k2;
    } else {
      k := a * k2 + k1 * b + k1 * k2 * m;
    }
  }

  /** For `/` and `%` on defined operands whose integers fit in a `long`,
      with the left operand at most 64 bits wide: the operation is
      undefined exactly for a zero divisor and for the most negative `long`
      divided by -1; otherwise the result is the truncating quotient or
      remainder, wrapped to the left operand's width. */
  lemma DivisionTruncates(op: char, l: Num, r: Num)
    requires op == '/' || op == '%'
    requires IsDefined(l.bits) && IsDefined(r.bits) && |l.bits| <= 64
    requires FitsLong(ToInt(l)) && FitsLong(ToInt(r))
    ensures ApplyBinary(op, l, r) ==
              if ToInt(r) == 0 || (ToInt(l) == -TwoTo63 && ToInt(r) == -1) then Failed(DivisionUndefined)
              else Folded(Num(Encode(Divide(op, ToInt(l), ToInt(r)), |l.bits|), false))
  {
    var a, b, w := ToInt(l), ToInt(r), |l.bits|;
    assert AsLong(l) == a && AsLong(r) == b;
  }

  /** An operand fits in a `long` when it is at most 63 bits wide, or 64
      bits wide and signed. */
  lemma NarrowFitsLong(n: Num)
    requires IsDefined(n.bits) && (|n.bits| <= 63 || (|n.bits| == 64 && n.hasSign))
    ensures FitsLong(ToInt(n))
  {
    var w := |n.bits|;
    LongPowers();
    if w >= 1 {
      Pow2Monotone(w - 1, 63);
    }
    if w <= 63 {
      Pow2Monotone(w, 63);
    }
  }

  // ---------------------------------------------------------------------
  // Shift

  /** A left shift by a defined amount moves the left operand's bits, X
      and Z included, up by the amount's value modulo 2^64 (its value, when
      it is at most 64 bits wide) at the left operand's width
      (`BitOps.ShiftedBitsAt` gives the bits, `BitOps.ShiftedValue` the
      value). */
  lemma ShiftFolds(l: Num, r: Num)
    requires IsDefined(r.bits)
    ensures ApplyBinary('l', l, r) == Folded(Num(ShiftedBits(l.bits, UVal(r.bits) % TwoTo64), false))
    ensures |r.bits| <= 64 ==> ApplyBinary('l', l, r) == Folded(Num(ShiftedBits(l.bits, UVal(r.bits)), false))
  {
    assert AsULong(r) == UVal(r.bits) % TwoTo64;
  }

  // ---------------------------------------------------------------------
  // Unary minus

  /** Unary minus on a defined operand of width w gives a signed constant
      of width w + 1 whose two's-complement value is minus the operand's
      unsigned value: the operand is zero-extended, so its sign flag plays
      no part. For an unsigned operand that is minus its integer. */
  lemma UnaryMinusNegates(v: Num)
    requires IsDefined(v.bits)
    ensures var res := ApplyUnary('-', v);
      && res.Folded? && |res.value.bits| == |v.bits| + 1 && res.value.hasSign
      && IsDefined(res.value.bits)
      && ToInt(res.value) == -UVal(v.bits)
      && (!v.hasSign ==> ToInt(res.value) == -ToInt(v))
  {
    NegValue(v.bits);
  }

  /** The widening the comment at eval.cc asks for: the operand with a
      copy of its top bit on top when it is signed, with a 0 otherwise. */
  function SignExtended(v: Num): (e: seq<Bit4>)
    ensures |e| == |v.bits| + 1
  {
    v.bits + [if v.hasSign && |v.bits| > 0 then v.bits[|v.bits| - 1] else V0]
  }

  /** Widening keeps a defined constant's integer, up to a multiple of the
      new weight 2^(w+1). */
  lemma SignExtendedValue(v: Num) returns (k: int)
    requires IsDefined(v.bits)
    ensures IsDefined(SignExtended(v))
    ensures UVal(SignExtended(v)) == ToInt(v) + k * Pow2(|v.bits| + 1)
  {
    var n := |v.bits|;
    var top := SignExtended(v)[n];
    assert SignExtended(v) == v.bits + [top];
    UValAppend(v.bits, [top]);
    assert Pow2(n + 1) == 2 * Pow2(n);
    k := if top == V1 then 1 else 0;
  }

  /** The negation the widening is meant to give: sign-extend, complement,
      add 1. */
  function SignExtendedNegation(v: Num): (r: Num)
    ensures |r.bits| == |v.bits| + 1 && r.hasSign
    ensures IsDefined(v.bits) ==> IsDefined(r.bits)
  {
    var e := SignExtended(v);
    assert IsDefined(v.bits) ==> IsDefined(AddCarry(Complement(e), V1)) by {
      if IsDefined(v.bits) {
        var _ := SignExtendedValue(v);
        ComplementValue(e);
        AddCarryValue(Complement(e), V1);
      }
    }
    Num(AddCarry(Complement(e), V1), true)
  }

  /** With the sign-extending widening, minus a defined operand is minus
      its integer, signed or not: one extra bit is enough to hold it. */
  lemma NegationWithoutOverflow(v: Num)
    requires IsDefined(v.bits)
    ensures IsDefined(SignExtendedNegation(v).bits)
    ensures ToInt(SignExtendedNegation(v)) == -ToInt(v)
  {
    var n, x := |v.bits|, ToInt(v);
    SignExtendedNegationBits(v);
    assert -Pow2(n) <= -x < Pow2(n) by {
      assert n > 0 ==> Pow2(n) == 2 * Pow2(n - 1);
    }
    SignedLiteralValue(n + 1, -x);
  }

  /** The sign-extending negation holds the low w + 1 bits of minus the
      operand's integer. */
  lemma SignExtendedNegationBits(v: Num)
    requires IsDefined(v.bits)
    ensures SignExtendedNegation(v).bits == Encode(-ToInt(v), |v.bits| + 1)
  {
    var n, x := |v.bits|, ToInt(v);
    var e, p := SignExtended(v), Pow2(n + 1);
    var r := SignExtendedNegation(v).bits;
    var k := SignExtendedValue(v);
    var u := UVal(e);
    assert IsDefined(r) && UVal(r) == if u == 0 then 0 else p - u by {
      ComplementValue(e);
      IncrementValue(Complement(e), u, p);
    }
    var m := NegatedOffset(x, k, p, u, UVal(r));
    EncodeUVal(r);
    EncodeCongruent(-x, m, n + 1);
  }

  /** Negating modulo p a value congruent to x gives one congruent to -x. */
  lemma NegatedOffset(x: int, k: int, p: int, u: int, negated: int) returns (m: int)
    requires u == x + k * p && negated == if u == 0 then 0 else p - u
    ensures negated == -x + m * p
  {
    m := if u == 0 then -k else 1 - k;
  }

  // ---------------------------------------------------------------------
  // Parameters resolved later

  /** `after` knows every parameter `before` knows, with the same value
      when `before` already had one; it may have resolved more. */
  predicate ResolvesFurther(before: Scope, after: Scope)
  {
    forall name :: name in before ==> name in after && (before[name].Constant? ==> after[name] == before[name])
  }

  /** A constant folded in a scope folds to the same constant once more
      parameters are resolved: a fold never depends on a parameter that is
      still unresolved. */
  lemma {:induction false} FoldStableUnderResolution(e: Expr, before: Scope, after: Scope)
    requires ResolvesFurther(before, after)
    requires Eval(e, before).Folded?
    ensures Eval(e, after) == Eval(e, before)
  {
    match e
    case Binary(op, left, right) =>
      FoldStableUnderResolution(left, before, after);
      FoldStableUnderResolution(right, before, after);
    case Unary(op, operand) =>
      FoldStableUnderResolution(operand, before, after);
    case Ternary(cond, onTrue, onFalse) =>
      FoldStableUnderResolution(cond, before, after);
      var t := Eval(cond, before);
      if t.value.bits[0] == V0 {
        FoldStableUnderResolution(onFalse, before, after);
      } else {
        FoldStableUnderResolution(onTrue, before, after);
      }
    case Ident(name, hasSelect) =>
    case Number(value) =>
    case Other(_) =>
  }

  // ---------------------------------------------------------------------
  // Worked examples

  /** The sized literal `w'dv` (`w'sdv` when signed): the low `w` bits of `v`. */
  function Literal(w: nat, v: int, signed: bool): (n: Num)
    ensures |n.bits| == w && IsDefined(n.bits) && n.hasSign == signed
  {
    Num(Encode(v, w), signed)
  }

  /** An unsigned literal holds its value when the value fits its width. */
  lemma LiteralValue(w: nat, v: int, signed: bool)
    requires 0 <= v < Pow2(w)
    ensures UVal(Literal(w, v, signed).bits) == v
  {
    EncodeValue(v, w);
    DivModUnique(v, Pow2(w), 0, v);
  }

  /** `+`, `-` or `*` of two unsigned literals of the same width at most 64
      folds to the literal of that width holding the exact result. */
  lemma LiteralArithmetic(op: char, w: nat, a: int, b: int)
    requires op == '+' || op == '-' || op == '*'
    requires w <= 64 && 0 <= a < Pow2(w) && 0 <= b < Pow2(w)
    ensures Eval(Binary(op, Number(Literal(w, a, false)), Number(Literal(w, b, false))), map[])
         == Folded(Literal(w, Arith(op, a, b), false))
  {
    var l, r := Literal(w, a, false), Literal(w, b, false);
    assert ToInt(l) == a && ToInt(r) == b by {
      LiteralValue(w, a, false);
      LiteralValue(w, b, false);
    }
    ArithmeticWraps(op, l, r);
    assert Eval(Binary(op, Number(l), Number(r)), map[]) == ApplyBinary(op, l, r);
  }

  /** Shifting an unsigned literal left by an unsigned literal amount of at
      most 64 bits folds to the literal holding the value times 2^k, wrapped
      to the width. */
  lemma LiteralShift(w: nat, a: int, kw: nat, k: nat, res: int)
    requires 0 <= a < Pow2(w) && kw <= 64 && k < Pow2(kw)
    requires res == (a * Pow2(k)) % Pow2(w)
    ensures Eval(Binary('l', Number(Literal(w, a, false)), Number(Literal(kw, k, false))), map[])
         == Folded(Literal(w, res, false))
  {
    var l, amount := Literal(w, a, false), Literal(kw, k, false);
    assert UVal(amount.bits) == k by {
      LiteralValue(kw, k, false);
    }
    ShiftFolds(l, amount);
    var shifted := ShiftedBits(l.bits, k);
    assert shifted == Encode(res, w) by {
      LiteralValue(w, a, false);
      ShiftedValue(l.bits, k);
      EncodeUVal(shifted);
    }
    assert Eval(Binary('l', Number(l), Number(amount)), map[]) == ApplyBinary('l', l, amount);
  }

  /** Minus a literal of width w holding `a`, signed or not, folds to the
      signed literal of width w + 1 holding -a. */
  lemma LiteralNegate(w: nat, a: int, signed: bool)
    requires 0 <= a < Pow2(w)
    ensures Eval(Unary('-', Number(Literal(w, a, signed))), map[]) == Folded(Literal(w + 1, -a, true))
  {
    var v := Literal(w, a, signed);
    var res := ApplyUnary('-', v).value;
    assert ToInt(res) == -a by {
      LiteralValue(w, a, signed);
      UnaryMinusNegates(v);
    }
    EncodeToInt(res);
    assert Eval(Unary('-', Number(v)), map[]) == ApplyUnary('-', v);
  }

  /** A signed literal holds its value when the value fits its width. */
  lemma SignedLiteralValue(w: nat, v: int)
    requires w >= 1 && -Pow2(w - 1) <= v < Pow2(w - 1)
    ensures ToInt(Literal(w, v, true)) == v
  {
    var n := Literal(w, v, true);
    var p := Pow2(w);
    assert p == 2 * Pow2(w - 1);
    EncodeValue(v, w);
    TopBit(n.bits);
    if v >= 0 {
      DivModUnique(v, p, 0, v);
    } else {
      DivModUnique(v, p, -1, v + p);
    }
  }

  /** 4'd2 + 4'd3 folds to 4'd5. */
  lemma AddExample()
    ensures Eval(Binary('+', Number(Literal(4, 2, false)), Number(Literal(4, 3, false))), map[])
         == Folded(Literal(4, 5, false))
  {
    assert Pow2(4) == 16;
    LiteralArithmetic('+', 4, 2, 3);
  }

  /** 4'd2 - 4'd5 wraps to 4'd13. */
  lemma SubtractExample()
    ensures Eval(Binary('-', Number(Literal(4, 2, false)), Number(Literal(4, 5, false))), map[])
         == Folded(Literal(4, 13, false))
  {
    assert Pow2(4) == 16;
    LiteralArithmetic('-', 4, 2, 5);
    EncodeCongruent(13, -1, 4);
  }

  /** 4'b1010 << 2 (an unsized, 32-bit amount) folds to 4'b1000: the
      top bits are dropped and the low bits are 0. */
  lemma ShiftExample()
    ensures Eval(Binary('l', Number(Literal(4, 10, false)), Number(Literal(32, 2, false))), map[])
         == Folded(Literal(4, 8, false))
  {
    assert Pow2(2) == 4 && Pow2(4) == 16;
    Pow2Monotone(2, 32);
    LiteralShift(4, 10, 32, 2, 8);
  }

  /** -4'sd3 folds to the signed 5-bit -3 (bits 11101). */
  lemma NegateExample()
    ensures Eval(Unary('-', Number(Literal(4, 3, true))), map[]) == Folded(Literal(5, -3, true))
  {
    assert Pow2(4) == 16;
    LiteralNegate(4, 3, true);
  }

  /** Minus a signed operand: the signed 4-bit -3 (bits 1101) folds to the
      signed 5-bit -13, not 3, because the operand is zero-extended. */
  lemma NegateSignedExample()
    ensures ToInt(Literal(4, -3, true)) == -3
    ensures Eval(Unary('-', Number(Literal(4, -3, true))), map[]) == Folded(Literal(5, -13, true))
  {
    assert Pow2(3) == 8 && Pow2(4) == 16;
    SignedLiteralValue(4, -3);
    EncodeCongruent(-3, 1, 4);
    assert Literal(4, -3, true) == Literal(4, 13, true);
    LiteralNegate(4, 13, true);
  }

  /** Minus the most negative signed 4-bit constant: -(4'sb1000), that is
      -(-8), folds to the signed 5-bit -8 instead of 8, because the operand
      is zero-extended before it is negated. The sign-extending negation
      gives 8. */
  lemma NegateMostNegativeExample()
    ensures ToInt(Literal(4, -8, true)) == -8
    ensures Eval(Unary('-', Number(Literal(4, -8, true))), map[]) == Folded(Literal(5, -8, true))
    ensures ToInt(Literal(5, -8, true)) == -8
    ensures ToInt(SignExtendedNegation(Literal(4, -8, true))) == 8
  {
    assert Pow2(3) == 8 && Pow2(4) == 16;
    SignedLiteralValue(4, -8);
    SignedLiteralValue(5, -8);
    EncodeCongruent(-8, 1, 4);
    assert Literal(4, -8, true) == Literal(4, 8, true);
    LiteralNegate(4, 8, true);
    NegationWithoutOverflow(Literal(4, -8, true));
  }

  /** `cond ? 4'd7 : 4'd1` with a 1-bit condition X does not fold, even
      though both branches are constants. */
  lemma UnknownConditionExample()
    ensures Eval(Ternary(Number(Num([Vx], false)), Number(Literal(4, 7, false)), Number(Literal(4, 1, false))), map[])
         == Failed(NotConstant)
  {
  }

  /** A parameter not yet resolved does not fold. */
  lemma UnresolvedExample()
    ensures Eval(Binary('+', Ident("WIDTH", false), Number(Literal(4, 1, false))), map["WIDTH" := Unresolved])
         == Failed(UnresolvedParameter("WIDTH"))
  {
  }
}
