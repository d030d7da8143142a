# Constant folding of parse-tree expressions

This project models the constant-expression folder of the Icarus Verilog
compiler front end (`eval.cc`). Elaboration uses the folder to reduce a
parse-tree expression to a constant: a parameter value, a range bound or a
repeat count. The folder walks the tree recursively. It folds:

- numeric literals;
- identifiers that name a parameter whose value is already a constant;
- the binary operators `+ - * / %` and the left shift `<<`;
- the unary `+` and `-`;
- the conditional `?:`.

Every other expression kind falls back to a default that declines to fold.

The model has four layers:

- `MachineArith`: powers of two, Euclidean remainder facts, and the C++ division and remainder, which truncate toward zero.
- `FourState`: constants as vectors of 4-state bits (`0`, `1`, `X`, `Z`).
  - `bits[0]` is the least significant bit and `|bits|` is the width. Each constant also has a sign flag.
  - The module defines the plain binary value (`UVal`), the two's-complement value (`ToInt`) and the low `w` bits of an integer (`Encode`).
- `LongConv`: the three conversions the folder asks of its number library on a 64-bit target.
  - Reading a constant as a `long` (`AsLong`) or as an `unsigned long` (`AsULong`).
  - Building a constant of a given width from an `unsigned long` (`FromULong`).
  - 64-bit wrap-around is written out explicitly.
- `BitOps`: the bit-level parts of the folder.
  - The left shift: the `ShiftedBits` function and the loop `ShiftLeft`.
  - The widened two's-complement negation: the `NegBits` function and the loop `Negate`.
  - Lemmas give the integer meaning of each.
- `ConstEval`: the folder itself.
  - `Eval` is the recursive specification and `EvalConst` the recursive method proved equal to it.
  - Lemmas state, operator by operator, what a folded result is and when folding fails.

Where the source returns a null pointer, the model returns `Failed` with a tag that says why:

| tag | where the source |
|---|---|
| `NotConstant` | returns null |
| `UnsupportedOperator` | returns null for an operator the folder does not handle |
| `UnresolvedParameter` | prints its "cannot evaluate" diagnostic, then returns null |
| `UndefinedOperand` | fails an `assert` because an operand holds X or Z |
| `SelectUnsupported` | fails an `assert` because an identifier carries a select |
| `DivisionUndefined` | divides by zero or divides the most negative `long` by -1, which is undefined in C++ |

The parameter table the folder consults is a `map` from names to `Unresolved` or `Constant(value)`.

## Model

| member | source | states |
|---|---|---|
| ConstEval.Eval | eval.cc:31-194 | Folding well-formed literals and parameters yields a constant with at least one bit. |
| ConstEval.EvalConst | eval.cc:31-194 | The recursive folder returns exactly the outcome `Eval` specifies. It calls the shift and negation loops. |
| ConstEval.DefaultNeverFolds | eval.cc:31-34 | An expression kind without its own folder never folds. |
| ConstEval.BinaryNeedsBothOperands | eval.cc:36-44 | A failure of the left operand is returned before the right is looked at. A failure of the right is returned next. A folded binary expression had both operands folded and an arithmetic or shift operator. |
| ConstEval.ApplyBinary | eval.cc:47-104 | A folded result has the left operand's width and no sign, and arithmetic results hold no X or Z. An operator other than `+ - * / % <<` fails as unsupported, and only such an operator does. An operand with X or Z fails exactly when the operator is arithmetic, or when it is the shift amount. |
| ConstEval.ArithmeticWraps | eval.cc:48-71 | For `+ - *` at a left width of at most 64, the result is the exact integer result of the operands' values, truncated to the left width. Its value is that result modulo 2^width. |
| ConstEval.DivisionTruncates | eval.cc:72-87 | For `/` and `%` on operands that fit in a `long`, a zero divisor or the most negative `long` divided by -1 is undefined. Otherwise the result is the C++ truncating quotient or remainder, truncated to the left width. |
| ConstEval.NarrowFitsLong | eval.cc:75-76 | Any constant of up to 63 bits, or a signed one of 64 bits, reads as a `long` without wrapping. |
| MachineArith.TruncDiv | eval.cc:77 | The C++ quotient truncates toward zero: `|b*q|` is at most `|a|` and within `|b|` of it, and `b*q` has the sign of `a`. |
| MachineArith.TruncMod | eval.cc:85 | The C++ remainder is smaller in magnitude than the divisor and has the sign of the dividend. With the quotient it rebuilds the dividend. |
| LongConv.AsLong | eval.cc:51-52 | Reading a constant as a `long` gives a value in [-2^63, 2^63), which is its integer whenever that integer fits. |
| LongConv.AsLongOffset | eval.cc:51-52 | The `long` reading differs from the constant's integer by a multiple of 2^64. |
| LongConv.AsULong | eval.cc:90 | Reading a constant as an `unsigned long` gives its binary value modulo 2^64, which is the binary value itself at widths up to 64. |
| LongConv.FromULong | eval.cc:53 | The constant built from an `unsigned long` has the requested width, no X or Z and no sign. At widths up to 64 it holds the low bits of the original integer. |
| LongConv.FromULongCongruent | eval.cc:53 | Integers that agree modulo 2^64 build the same constant of width at most 64. |
| LongConv.Wrap64 | eval.cc:51-52 | Storing an integer in a `long` gives a value in the `long` range, and leaves in-range integers unchanged. |
| LongConv.ULong | eval.cc:90 | Converting an integer to `unsigned long` gives it modulo 2^64, a value in [0, 2^64), and leaves in-range integers unchanged. |
| ConstEval.ShiftFolds | eval.cc:88-97 | A left shift by a defined amount folds to the left operand's bits moved up by the amount's value modulo 2^64, unsigned, at the left width. For amounts of at most 64 bits the move is the amount's value. |
| BitOps.ShiftLeft | eval.cc:91-96 | The copy loop into a zero-filled result computes exactly the shifted vector. |
| BitOps.ShiftedBitsAt | eval.cc:91-96 | Shifting by at least the width leaves all zeros. Otherwise the low `k` bits are zero and bit `i` moves to `i+k`. |
| BitOps.ShiftedValue | eval.cc:88-97 | On a defined vector, the shift multiplies the value by 2^k modulo 2^width. |
| BitOps.Negate | eval.cc:182-187 | The widen, complement and add-one loop computes exactly the widened two's-complement negation. |
| BitOps.NegValue | eval.cc:182-187 | The negation of a defined vector, read as signed, is minus the vector's binary value. |
| BitOps.NegUValue | eval.cc:182-187 | As a binary value, the widened negation is 0 for 0 and 2^(w+1) minus the value otherwise. |
| BitOps.ComplementValue | eval.cc:186 | Complementing a defined vector gives 2^w - 1 minus its value. |
| BitOps.AddCarryValue | eval.cc:186 | Adding a carry bit to a defined vector adds it to the value modulo 2^w. |
| ConstEval.EvalIdent | eval.cc:116-135 | An identifier folds exactly when it names a parameter in scope, carries no select, and the parameter is a constant. It then folds to that constant. |
| ConstEval.IdentifierLookup | eval.cc:116-135 | A name not found is not constant. An unresolved parameter fails with its name. A constant parameter folds to its value. |
| ConstEval.FoldStableUnderResolution | eval.cc:126-130 | Resolving further parameters never changes an expression that already folded. |
| ConstEval.NumberFoldsToItself | eval.cc:143-146 | A literal folds to its own value, X and Z bits included. |
| ConstEval.TernarySelects | eval.cc:148-165 | A condition whose bit 0 is 0 selects the false branch and a 1 selects the true branch. An X or Z bit 0 does not fold, whatever the branches are. |
| ConstEval.ApplyUnary | eval.cc:168-194 | Only `+` and `-` fold, and any other operator fails as unsupported. The result of `-` is signed and one bit wider than its operand. |
| ConstEval.UnaryPlusIdentity | eval.cc:174-176 | Unary plus folds to its operand's outcome unchanged. |
| ConstEval.UnaryMinusNegates | eval.cc:178-189 | For a defined operand, unary minus folds to a signed constant one bit wider whose value is minus the operand's binary value, and so minus its integer when it is unsigned. |
| ConstEval.LiteralArithmetic | eval.cc:48-71 | Two unsigned literals of equal width up to 64 fold under `+ - *` to the literal of the exact result at that width. |
| ConstEval.LiteralShift | eval.cc:88-97 | A literal shifted by a literal amount folds to the literal of value `a*2^k mod 2^w`. |
| ConstEval.LiteralNegate | eval.cc:178-189 | Negating a `w`-bit literal of value `a` folds to the signed `w+1`-bit literal of `-a`. |
| ConstEval.AddExample | eval.cc:48-55 | `4'd2 + 4'd3` folds to `4'd5`. |
| ConstEval.SubtractExample | eval.cc:56-63 | `4'd2 - 4'd5` wraps to `4'd13`. |
| ConstEval.ShiftExample | eval.cc:88-97 | `4'b1010 << 2` folds to `4'b1000`. |
| ConstEval.NegateExample | eval.cc:178-189 | `-4'sd3` folds to the signed 5-bit pattern `11101`. |
| ConstEval.NegateSignedExample | eval.cc:178-189 | The signed 4-bit -3 negates as the unsigned 13, to the signed 5-bit -13. |
| ConstEval.NegateMostNegativeExample | eval.cc:179-187 | `-(4'sb1000)`, minus the signed 4-bit -8, folds to the signed 5-bit -8 rather than 8. The sign-extending negation gives 8. |
| ConstEval.SignExtendedValue | eval.cc:179-184 | Widening a defined constant by its sign bit (by 0 when unsigned) keeps its integer modulo 2^(w+1). |
| ConstEval.SignExtendedNegation | eval.cc:179-187 | The intended negation is signed, one bit wider than its operand, and free of X and Z when the operand is. |
| ConstEval.SignExtendedNegationBits | eval.cc:179-187 | The intended negation holds the low w+1 bits of minus the operand's integer. |
| ConstEval.NegationWithoutOverflow | eval.cc:179-187 | With the sign-extending widening, minus a defined operand, signed or not, is exactly minus its integer: the extra bit prevents overflow. |
| ConstEval.UnknownConditionExample | eval.cc:161-164 | `X ? 4'd7 : 4'd1` does not fold, even though both branches are constant. |
| ConstEval.UnresolvedExample | eval.cc:126-130 | `WIDTH + 1`, with `WIDTH` an unresolved parameter, fails naming `WIDTH`. |

## Left out

- `PEFNumber::eval_const` (eval.cc:137-141): this converts a real literal through floating point, which the model does not have.
- Diagnostics: the text, source location and scope name of the "cannot evaluate" message are not modelled. Only the parameter's name is kept, in `UnresolvedParameter`.
- Memory: the allocation and deletion of results are not modelled. The in-place overwrite of the operand in unary minus is not modelled either; it is a fresh value.
- Parameter lookup: `Design::find_parameter`, `NetScope` and the `dynamic_cast` tests on the found expression are replaced by the `Scope` map. A found parameter is either unresolved or a constant. The `assert` that fails on any other kind of found expression is not modelled.
- The `assert(scope)` null check is not modelled, because the map always exists.
- The number library: its source is not part of this model.
  - `as_long`, `as_ulong`, the `(unsigned long, width)` constructor, `v_not`, `operator+` and `has_sign` are this model's own definitions (`AsLong`, `AsULong`, `FromULong`, `Complement`, `AddCarry`).
  - They assume a 64-bit `long`. Addition propagates X and Z bit by bit.
- Failed `assert`s stop the source compiler. The model turns them into the failures `UndefinedOperand` and `SelectUnsupported`.
- Identifiers: only whether a select is present is kept, not the select itself.
- Ternary condition: a condition with no bits would need `get(0)` out of range. The model reports `NotConstant`; constants built from literals and parameters always have a bit (`Eval`).
- C++ undefined behaviour: division by zero and the most negative `long` divided by -1 become `DivisionUndefined`.
- Signed overflow of `long` in `+ - *` is modelled as 64-bit wrap-around, which is what the target hardware does.
- ConstEval.ArithmeticWraps: the folded value is stated only for a left operand of at most 64 bits. Wider results keep only the low 64 bits of the wrapped `long`. `FromULong` and `ApplyBinary` state the width and definedness for every width.
- ConstEval.DivisionTruncates: the result is stated only for a left width of at most 64 and operands whose integers fit in a `long`. `NarrowFitsLong` says which constants do.
- ConstEval.UnaryMinusNegates: the bits are stated for every operand (`ApplyUnary`, `BitOps.Negate`). The integer value is stated only for operands without X or Z.
- Unary minus on a signed operand negates its unsigned reading, as the source does. `Eval` keeps this behaviour; see "## Findings".

## Findings

| source | as written | input that shows it | evidently intended | confidence | as-written member | corrected member |
|---|---|---|---|---|---|---|
| eval.cc:179-187 | Unary minus widens the operand with a 0 bit whatever its sign, so a negative signed operand is negated as its unsigned reading. | `-(4'sb1000)`: the operand is -8 and the result is the signed 5-bit -8 (the signed 4-bit -3 gives -13). | Widen a signed operand with its sign bit, so that the result is minus the operand's integer and the extra bit guarantees no overflow, as the comment at eval.cc:179-181 says. | not executed | ConstEval.NegateMostNegativeExample | ConstEval.NegationWithoutOverflow |

The folder `Eval` follows the code as written. `SignExtendedNegation` is the corrected negation, with `NegationWithoutOverflow` proved about it for every defined operand.
