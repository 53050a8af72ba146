/**
  The integer overflow predicates (gnulib/intprops.h, gnulib/intprops-internal.h) and the
  bound on the length of a printed integer.

  The predicates are C expressions.  An expression is modelled by its type, which is known
  without evaluating it, and its value: None where C leaves the behaviour undefined (a result
  out of a signed type, a division by zero).  `&&`, `||` and `?:` ignore the value of what
  they do not evaluate, so a predicate with a value is also shown not to overflow itself.
  Operands of different types meet in their common type, as C says.
 */
module Intprops {
  import opened Bits
  import opened Modular
  import opened Powers
  import opened TwosComplement
  import opened Wrappers
  import Digits

  // ---------------------------------------------------------- integer types

  type WidthOfInt = n: nat | 16 <= n witness 16

  /** The width of int. */
  const INT_WIDTH: WidthOfInt

  datatype IntType = IntType(signed: bool, width: nat)

  /** An integer type after promotion: two's complement, no padding bits, at least as wide as int. */
  type CType = t: IntType | INT_WIDTH <= t.width witness IntType(true, INT_WIDTH)

  const INT: CType := IntType(true, INT_WIDTH)

  function Half(t: CType): (h: nat)
    ensures h > 0
  {
    Pow2(t.width - 1)
  }

  function Lo(t: CType): int {
    if t.signed then 0 - Half(t) else 0
  }

  function Hi(t: CType): int {
    if t.signed then Half(t) - 1 else 2 * Half(t) - 1
  }

  predicate Fits(t: CType, n: int) {
    Lo(t) <= n <= Hi(t)
  }

  /** The usual arithmetic conversions: the wider type, and of two equally wide ones the unsigned one. */
  function Common(s: CType, t: CType): CType {
    if s.width > t.width then s
    else if t.width > s.width then t
    else if s.signed then t else s
  }

  // ----------------------------------------------------- values of expressions

  datatype Outcome = Outcome(t: CType, v: Option<int>)

  function Of(t: CType, n: int): Outcome {
    Outcome(t, Some(n))
  }

  /** n modulo p; the first cases are all that conversions, sums and differences need. */
  function Modulo(n: int, p: nat): int
    requires 0 < p
  {
    if 0 <= n < p then n
    else if 0 <= n + p < p then n + p
    else if 0 <= n - p < p then n - p
    else Remainder(n, p)
  }

  function Remainder(n: int, p: nat): int
    requires 0 < p
  {
    n % p
  }

  /** The result n of an operation: signed arithmetic must not overflow, unsigned arithmetic wraps. */
  function Fit(t: CType, n: int): Outcome {
    if Fits(t, n) then Of(t, n)
    else if t.signed then Outcome(t, None)
    else Of(t, Modulo(n, 2 * Half(t)))
  }

  /** The conversion of an operand to a common type, which is signed only if the operand fits. */
  function To(t: CType, x: Outcome): Outcome {
    if x.v.None? then Outcome(t, None) else Fit(t, x.v.value)
  }

  function Lit(n: int): Outcome {
    Of(INT, n)
  }

  function Plus(x: Outcome, y: Outcome): (r: Outcome)
    ensures r.t == Common(x.t, y.t)
  {
    var c := Common(x.t, y.t);
    var l, r := To(c, x), To(c, y);
    if l.v.None? || r.v.None? then Outcome(c, None) else Fit(c, l.v.value + r.v.value)
  }

  function Minus(x: Outcome, y: Outcome): (r: Outcome)
    ensures r.t == Common(x.t, y.t)
  {
    var c := Common(x.t, y.t);
    var l, r := To(c, x), To(c, y);
    if l.v.None? || r.v.None? then Outcome(c, None) else Fit(c, l.v.value - r.v.value)
  }

  function Times(x: Outcome, y: Outcome): (r: Outcome)
    ensures r.t == Common(x.t, y.t)
  {
    var c := Common(x.t, y.t);
    var l, r := To(c, x), To(c, y);
    if l.v.None? || r.v.None? then Outcome(c, None) else Fit(c, l.v.value * r.v.value)
  }

  /** Division rounds towards zero. */
  function Quotient(x: int, y: int): int
    requires y != 0
  {
    if x >= 0 && y > 0 then x / y
    else if x < 0 && y > 0 then -((-x) / y)
    else if x >= 0 then -(x / (-y))
    else (-x) / (-y)
  }

  function Over(x: Outcome, y: Outcome): (r: Outcome)
    ensures r.t == Common(x.t, y.t)
  {
    var c := Common(x.t, y.t);
    var l, r := To(c, x), To(c, y);
    if l.v.None? || r.v.None? || r.v.value == 0 then Outcome(c, None) else Fit(c, Quotient(l.v.value, r.v.value))
  }

  function Opposite(x: Outcome): (r: Outcome)
    ensures r.t == x.t
  {
    if x.v.None? then x else Fit(x.t, -x.v.value)
  }

  function Complement(x: Outcome): (r: Outcome)
    ensures r.t == x.t
  {
    if x.v.None? then x else Of(x.t, if x.t.signed then -1 - x.v.value else Hi(x.t) - x.v.value)
  }

  /** A left shift of a value that is not negative, by less than the width. */
  function ShiftLeft(x: Outcome, k: nat): (r: Outcome)
    ensures r.t == x.t
  {
    if x.v.None? || x.v.value < 0 || k >= x.t.width then Outcome(x.t, None) else Fit(x.t, x.v.value * Pow2(k))
  }

  function Floor(x: int, p: nat): int
    requires p > 0
  {
    x / p
  }

  /** A right shift; of a negative value it is arithmetic, as in every compiler at hand. */
  function ShiftRight(x: Outcome, k: nat): (r: Outcome)
    ensures r.t == x.t
  {
    if x.v.None? || k >= x.t.width then Outcome(x.t, None) else Of(x.t, Floor(x.v.value, Pow2(k)))
  }

  function Truth(b: bool): (r: Outcome)
    ensures r.t == INT
  {
    Lit(if b then 1 else 0)
  }

  function Less(x: Outcome, y: Outcome): (r: Outcome)
    ensures r.t == INT
  {
    var c := Common(x.t, y.t);
    var l, r := To(c, x), To(c, y);
    if l.v.None? || r.v.None? then Outcome(INT, None) else Truth(l.v.value < r.v.value)
  }

  function AtMost(x: Outcome, y: Outcome): (r: Outcome)
    ensures r.t == INT
  {
    var c := Common(x.t, y.t);
    var l, r := To(c, x), To(c, y);
    if l.v.None? || r.v.None? then Outcome(INT, None) else Truth(l.v.value <= r.v.value)
  }

  function Same(x: Outcome, y: Outcome): (r: Outcome)
    ensures r.t == INT
  {
    var c := Common(x.t, y.t);
    var l, r := To(c, x), To(c, y);
    if l.v.None? || r.v.None? then Outcome(INT, None) else Truth(l.v.value == r.v.value)
  }

  function Negation(x: Outcome): (r: Outcome)
    ensures r.t == INT
  {
    if x.v.None? then Outcome(INT, None) else Truth(x.v.value == 0)
  }

  function AndAlso(x: Outcome, y: Outcome): (r: Outcome)
    ensures r.t == INT
  {
    if x.v.None? then Outcome(INT, None)
    else if x.v.value == 0 then Truth(false)
    else if y.v.None? then Outcome(INT, None)
    else Truth(y.v.value != 0)
  }

  function OrElse(x: Outcome, y: Outcome): (r: Outcome)
    ensures r.t == INT
  {
    if x.v.None? then Outcome(INT, None)
    else if x.v.value != 0 then Truth(true)
    else if y.v.None? then Outcome(INT, None)
    else Truth(y.v.value != 0)
  }

  function Cond(c: Outcome, x: Outcome, y: Outcome): (r: Outcome)
    ensures r.t == Common(x.t, y.t)
  {
    var t := Common(x.t, y.t);
    if c.v.None? then Outcome(t, None) else To(t, if c.v.value != 0 then x else y)
  }

  // ------------------------------------------------------- the macros, as written

  /** _GL_INT_CONVERT: (1 ? 0 : e) + v */
  function Convert(e: Outcome, v: Outcome): (r: Outcome)
    ensures r.t == Common(e.t, v.t)
  {
    Plus(Cond(Truth(true), Lit(0), e), v)
  }

  /** _GL_EXPR_SIGNED: ((1 ? 0 : e) - 1) < 0 */
  function ExprSigned(e: Outcome): (r: Outcome)
    ensures r.t == INT
  {
    Less(Minus(Cond(Truth(true), Lit(0), e), Lit(1)), Lit(0))
  }

  /** _GL_SIGNED_INT_MAXIMUM */
  function SignedMaximum(e: Outcome): (r: Outcome)
    ensures r.t == e.t
  {
    Plus(Times(Minus(ShiftLeft(Convert(e, Lit(1)), e.t.width - 2), Lit(1)), Lit(2)), Lit(1))
  }

  /** _GL_INT_MINIMUM */
  function Minimum(e: Outcome): Outcome {
    Cond(ExprSigned(e), Complement(SignedMaximum(e)), Convert(e, Lit(0)))
  }

  /** _GL_INT_MAXIMUM */
  function Maximum(e: Outcome): Outcome {
    Cond(ExprSigned(e), SignedMaximum(e), Minus(Cond(Truth(true), Lit(0), e), Lit(1)))
  }

  /** _GL_INT_NEGATE_RANGE_OVERFLOW */
  function NegateRangeOverflow(a: Outcome, min: Outcome, max: Outcome): Outcome {
    Cond(Less(min, Lit(0)), Less(a, Opposite(max)), Less(Lit(0), a))
  }

  /** _GL_INT_NEGATE_OVERFLOW */
  function NegateOverflow(a: Outcome): Outcome {
    NegateRangeOverflow(a, Minimum(a), Maximum(a))
  }

  /** The case b < 0 of the next macro. */
  function AddNegative(a: Outcome, b: Outcome, tmin: Outcome, tmax: Outcome): (r: Outcome)
    ensures r.t == INT
  {
    OrElse(
      Cond(tmin,
        AndAlso(OrElse(ExprSigned(Convert(a, Minus(tmin, b))), Less(b, tmin)), Less(a, Minus(tmin, b))),
        AtMost(a, Minus(Lit(-1), b))),
      AndAlso(Cond(ExprSigned(a), AtMost(Lit(0), a), Less(tmax, a)), Less(tmax, Plus(a, b))))
  }

  /** The case a < 0 <= b. */
  function AddToNegative(a: Outcome, b: Outcome, tmin: Outcome, tmax: Outcome): (r: Outcome)
    ensures r.t == INT
  {
    OrElse(
      Cond(tmin,
        AndAlso(OrElse(ExprSigned(Convert(b, Minus(tmin, a))), Less(a, tmin)), Less(b, Minus(tmin, a))),
        AtMost(b, Minus(Lit(-1), a))),
      AndAlso(OrElse(ExprSigned(Convert(a, b)), Less(tmax, b)), Less(tmax, Plus(a, b))))
  }

  /** _GL_INT_ADD_RANGE_OVERFLOW */
  function AddRangeOverflow(a: Outcome, b: Outcome, tmin: Outcome, tmax: Outcome): Outcome {
    Cond(Less(b, Lit(0)), AddNegative(a, b, tmin, tmax),
    Cond(Less(a, Lit(0)), AddToNegative(a, b, tmin, tmax),
      OrElse(Less(tmax, b), Less(Minus(tmax, b), a))))
  }

  /** The three cases of the next macro: the same sign, a < 0 <= b, and b < 0 <= a. */
  function SubtractAlike(a: Outcome, b: Outcome, tmin: Outcome, tmax: Outcome): (r: Outcome)
    ensures r.t == INT
  {
    Cond(Less(a, b),
      OrElse(Negation(tmin), Less(Minus(Lit(-1), tmin), Minus(Minus(b, a), Lit(1)))),
      Less(tmax, Minus(a, b)))
  }

  function SubtractFromNegative(a: Outcome, b: Outcome, tmin: Outcome): (r: Outcome)
    ensures r.t == INT
  {
    OrElse(
      AndAlso(Negation(ExprSigned(Convert(Minus(a, tmin), b))), Less(Minus(a, tmin), Lit(0))),
      Less(Minus(a, tmin), b))
  }

  function SubtractNegative(a: Outcome, b: Outcome, tmax: Outcome): (r: Outcome)
    ensures r.t == INT
  {
    OrElse(
      AndAlso(Negation(AndAlso(ExprSigned(Convert(tmax, b)), ExprSigned(Convert(Plus(tmax, b), a)))),
              AtMost(tmax, Minus(Lit(-1), b))),
      Less(Plus(tmax, b), a))
  }

  /** _GL_INT_SUBTRACT_RANGE_OVERFLOW */
  function SubtractRangeOverflow(a: Outcome, b: Outcome, tmin: Outcome, tmax: Outcome): Outcome {
    Cond(Same(Less(a, Lit(0)), Less(b, Lit(0))), SubtractAlike(a, b, tmin, tmax),
    Cond(Less(a, Lit(0)), SubtractFromNegative(a, b, tmin), SubtractNegative(a, b, tmax)))
  }

  /** The cases of the next macro in which both operands are negative, */
  function MultiplyNegatives(a: Outcome, b: Outcome, tmax: Outcome): Outcome {
    Cond(ExprSigned(Convert(tmax, b)),
      Less(a, Over(tmax, b)),
      AtMost(
        Cond(NegateOverflow(b), ShiftRight(Convert(b, tmax), b.t.width - 1), Over(tmax, Opposite(b))),
        Minus(Lit(-1), a)))
  }

  /** only b is, */
  function MultiplyByNegative(a: Outcome, b: Outcome, tmin: Outcome): Outcome {
    Cond(AndAlso(NegateOverflow(Convert(b, tmin)), Same(b, Lit(-1))),
      Cond(ExprSigned(a),
        Less(Lit(0), Plus(a, tmin)),
        AndAlso(Less(Lit(0), a), Less(Minus(Lit(-1), tmin), Minus(a, Lit(1))))),
      Less(Over(tmin, b), a))
  }

  /** or only a is and b > 0. */
  function MultiplyNegative(a: Outcome, b: Outcome, tmin: Outcome): Outcome {
    Cond(AndAlso(NegateOverflow(Convert(a, tmin)), Same(a, Lit(-1))),
      Cond(ExprSigned(b),
        Less(Lit(0), Plus(b, tmin)),
        Less(Minus(Lit(-1), tmin), Minus(b, Lit(1)))),
      Less(Over(tmin, a), b))
  }

  /** _GL_INT_MULTIPLY_RANGE_OVERFLOW */
  function MultiplyRangeOverflow(a: Outcome, b: Outcome, tmin: Outcome, tmax: Outcome): Outcome {
    Cond(Less(b, Lit(0)),
      Cond(Less(a, Lit(0)), MultiplyNegatives(a, b, tmax), MultiplyByNegative(a, b, tmin)),
    Cond(Same(b, Lit(0)),
      Lit(0),
      Cond(Less(a, Lit(0)), MultiplyNegative(a, b, tmin), Less(Over(tmax, b), a))))
  }

  /** INT_ADD_RANGE_OVERFLOW */
  function IntAddRangeOverflow(a: Outcome, b: Outcome, min: Outcome, max: Outcome): Outcome {
    Cond(Less(b, Lit(0)), Less(a, Minus(min, b)), Less(Minus(max, b), a))
  }

  /** INT_SUBTRACT_RANGE_OVERFLOW */
  function IntSubtractRangeOverflow(a: Outcome, b: Outcome, min: Outcome, max: Outcome): Outcome {
    Cond(Less(b, Lit(0)), Less(Plus(max, b), a), Less(a, Plus(min, b)))
  }

  /** INT_MULTIPLY_RANGE_OVERFLOW */
  function IntMultiplyRangeOverflow(a: Outcome, b: Outcome, min: Outcome, max: Outcome): Outcome {
    Cond(Less(b, Lit(0)),
      Cond(Less(a, Lit(0)),
        Less(a, Over(max, b)),
        Cond(Same(b, Lit(-1)), Lit(0), Less(Over(min, b), a))),
    Cond(Same(b, Lit(0)),
      Lit(0),
      Cond(Less(a, Lit(0)), Less(a, Over(min, b)), Less(Over(max, b), a))))
  }

  /** INT_DIVIDE_RANGE_OVERFLOW, and the same for the remainder */
  function IntDivideRangeOverflow(a: Outcome, b: Outcome, min: Outcome, max: Outcome): Outcome {
    AndAlso(AndAlso(Less(min, Lit(0)), Same(b, Lit(-1))), Less(a, Opposite(max)))
  }

  /** INT_LEFT_SHIFT_RANGE_OVERFLOW */
  function IntLeftShiftRangeOverflow(a: Outcome, k: nat, min: Outcome, max: Outcome): Outcome {
    Cond(Less(a, Lit(0)), Less(a, ShiftRight(min, k)), Less(ShiftRight(max, k), a))
  }

  // --------------------------------------------------- types and their bounds

  /** A wider type has at least twice as many values. */
  lemma HalfOrder(s: CType, t: CType)
    ensures s.width == t.width ==> Half(s) == Half(t)
    ensures s.width < t.width ==> 2 * Half(s) <= Half(t)
    ensures t.width < s.width ==> 2 * Half(t) <= Half(s)
  {
    if s.width < t.width { Pow2Order(s.width, t.width - 1); }
    if t.width < s.width { Pow2Order(t.width, s.width - 1); }
  }

  lemma Pow2Order(i: nat, j: nat)
    requires i <= j && 0 < i
    ensures 2 * Pow2(i - 1) <= Pow2(j)
  {
    if i < j { Pow2Less(i, j); }
  }

  lemma HalfOfInt(t: CType)
    ensures Half(t) >= 4
  {
    HalfOrder(INT, t);
    if INT_WIDTH > 16 { Pow2Less(15, INT_WIDTH - 1); }
  }

  /** The order of the bounds of four types, and of int. */
  lemma Bounds(a: CType, b: CType, n: CType, x: CType)
    ensures Ordered(a, b) && Ordered(a, n) && Ordered(a, x) && Ordered(b, n) && Ordered(b, x) && Ordered(n, x)
    ensures Ordered(INT, a) && Ordered(INT, b) && Ordered(INT, n) && Ordered(INT, x)
    ensures Half(INT) >= 4
  {
    hide Half;
    HalfOfInt(INT);
    HalfOrder(a, b); HalfOrder(a, n); HalfOrder(a, x); HalfOrder(b, n); HalfOrder(b, x); HalfOrder(n, x);
    HalfOrder(INT, a); HalfOrder(INT, b); HalfOrder(INT, n); HalfOrder(INT, x);
  }

  ghost predicate Ordered(s: CType, t: CType) {
    && (s.width == t.width ==> Half(s) == Half(t))
    && (s.width < t.width ==> 2 * Half(s) <= Half(t))
    && (t.width < s.width ==> 2 * Half(t) <= Half(s))
  }

  lemma ExprSignedMeans(e: Outcome)
    ensures ExprSigned(e) == Truth(e.t.signed)
  {
    hide Half, Remainder;
    Bounds(e.t, e.t, e.t, e.t);
  }

  // ----------------------------------------------------------- what they mean

  /** A range for results: its lower end is signed, and its upper end too unless the lower one is 0. */
  predicate IsRange(tmin: Outcome, tmax: Outcome) {
    && tmin.v.Some? && tmax.v.Some? && Fits(tmin.t, tmin.v.value) && Fits(tmax.t, tmax.v.value)
    && tmin.v.value <= 0 < tmax.v.value
    && tmin.t.signed && (tmin.v.value != 0 ==> tmax.t.signed)
  }

  predicate IsValue(x: Outcome) {
    x.v.Some? && Fits(x.t, x.v.value)
  }

  predicate Outside(n: int, tmin: Outcome, tmax: Outcome)
    requires IsRange(tmin, tmax)
  {
    !(tmin.v.value <= n <= tmax.v.value)
  }

  /**
    The operands of an addition meet in an unsigned type, one is negative and the other beyond
    the range, and the sum is negative but in the range.
   */
  predicate Wraps(a: Outcome, b: Outcome, tmin: Outcome, tmax: Outcome)
    requires IsValue(a) && IsValue(b) && IsRange(tmin, tmax)
  {
    && !Common(a.t, b.t).signed
    && (tmax.v.value < a.v.value || tmax.v.value < b.v.value)
    && tmin.v.value <= a.v.value + b.v.value < 0
  }

  /** The value n of an operand in a common type. */
  function Read(c: CType, n: int): int {
    if n < 0 && !c.signed then n + 2 * Half(c) else n
  }

  /** The value of a sum or difference n in the type c. */
  function Wrapped(c: CType, n: int): Outcome {
    if Fits(c, n) then Of(c, n)
    else if c.signed then Outcome(c, None)
    else Of(c, if n < 0 then n + 2 * Half(c) else n - 2 * Half(c))
  }

  lemma ToReads(x: Outcome, t: CType)
    requires IsValue(x)
    ensures var c := Common(x.t, t);
            To(c, x) == Of(c, Read(c, x.v.value)) && Lo(c) <= Read(c, x.v.value) <= Hi(c)
    ensures Common(t, x.t) == Common(x.t, t) || !Common(x.t, t).signed
  {
    hide Half, Remainder;
    HalfOrder(x.t, t);
  }

  lemma CommonSame(s: CType, t: CType)
    ensures Common(s, t) == Common(t, s)
  {}

  lemma LessReads(x: Outcome, y: Outcome)
    requires IsValue(x) && IsValue(y)
    ensures var c := Common(x.t, y.t);
            && Less(x, y) == Truth(Read(c, x.v.value) < Read(c, y.v.value))
            && AtMost(x, y) == Truth(Read(c, x.v.value) <= Read(c, y.v.value))
            && Same(x, y) == Truth(Read(c, x.v.value) == Read(c, y.v.value))
  {
    hide Half, To, Read;
    CommonSame(x.t, y.t);
    ToReads(x, y.t);
    ToReads(y, x.t);
  }

  lemma SumReads(x: Outcome, y: Outcome)
    requires IsValue(x) && IsValue(y)
    ensures var c := Common(x.t, y.t);
            && Plus(x, y) == Wrapped(c, Read(c, x.v.value) + Read(c, y.v.value))
            && Minus(x, y) == Wrapped(c, Read(c, x.v.value) - Read(c, y.v.value))
  {
    hide Half, To, Read, Remainder;
    CommonSame(x.t, y.t);
    ToReads(x, y.t);
    ToReads(y, x.t);
  }

  lemma NonnegativeReads(x: Outcome, y: Outcome)
    requires IsValue(x) && IsValue(y)
    requires Common(x.t, y.t).signed || (x.v.value >= 0 && y.v.value >= 0)
    ensures Less(x, y) == Truth(x.v.value < y.v.value) && AtMost(x, y) == Truth(x.v.value <= y.v.value)
    ensures Same(x, y) == Truth(x.v.value == y.v.value)
  {
    hide Half, Less, AtMost, Same;
    LessReads(x, y);
  }

  /** Comparison with a small literal of type int. */
  lemma SmallReads(x: Outcome, n: int)
    requires IsValue(x) && -1 <= n <= 1 && (n == -1 ==> x.t.signed)
    ensures IsValue(Lit(n)) && Common(x.t, INT) == x.t == Common(INT, x.t)
    ensures Less(x, Lit(n)) == Truth(x.v.value < n) && AtMost(Lit(n), x) == Truth(n <= x.v.value)
    ensures Less(Lit(n), x) == Truth(n < x.v.value) && Same(x, Lit(n)) == Truth(x.v.value == n)
  {
    hide Half, Less, AtMost, Same;
    HalfOfInt(INT);
    LessReads(x, Lit(n));
    LessReads(Lit(n), x);
  }

  /** The negative operand is subtracted from the lower end of the range. */
  lemma AddNegativeLowSigned(a: Outcome, b: Outcome, tmin: Outcome, tmax: Outcome)
    requires IsValue(a) && IsValue(b) && IsRange(tmin, tmax) && b.v.value < 0 && tmin.v.value != 0
    ensures AndAlso(OrElse(ExprSigned(Convert(a, Minus(tmin, b))), Less(b, tmin)), Less(a, Minus(tmin, b)))
            == Truth(a.v.value + b.v.value < tmin.v.value)
  {
    hide Half, ExprSigned, Less, Minus;
    Bounds(a.t, b.t, tmin.t, tmax.t);
    ExprSignedMeans(Convert(a, Minus(tmin, b)));
    SumReads(tmin, b);
    NonnegativeReads(b, tmin);
    LessReads(a, Minus(tmin, b));
  }

  lemma AddNegativeLowZero(a: Outcome, b: Outcome)
    requires IsValue(a) && IsValue(b) && b.v.value < 0
    ensures AtMost(a, Minus(Lit(-1), b)) == Truth(a.v.value + b.v.value < 0)
  {
    hide Half, Less, Minus, AtMost;
    Bounds(a.t, b.t, a.t, b.t);
    SmallReads(b, -1);
    SumReads(Lit(-1), b);
    NonnegativeReads(a, Minus(Lit(-1), b));
  }

  lemma AddNegativeLow(a: Outcome, b: Outcome, tmin: Outcome, tmax: Outcome)
    requires IsValue(a) && IsValue(b) && IsRange(tmin, tmax) && b.v.value < 0
    ensures Cond(tmin,
              AndAlso(OrElse(ExprSigned(Convert(a, Minus(tmin, b))), Less(b, tmin)), Less(a, Minus(tmin, b))),
              AtMost(a, Minus(Lit(-1), b)))
            == Truth(a.v.value + b.v.value < tmin.v.value)
  {
    hide Half, ExprSigned, Less, AtMost, Minus, Convert, AndAlso, OrElse;
    HalfOfInt(INT);
    if tmin.v.value != 0 { AddNegativeLowSigned(a, b, tmin, tmax); } else { AddNegativeLowZero(a, b); }
  }

  lemma AddNegativeHigh(a: Outcome, b: Outcome, tmin: Outcome, tmax: Outcome)
    requires IsValue(a) && IsValue(b) && IsRange(tmin, tmax) && b.v.value < 0
    requires tmin.v.value <= a.v.value + b.v.value
    ensures AndAlso(Cond(ExprSigned(a), AtMost(Lit(0), a), Less(tmax, a)), Less(tmax, Plus(a, b)))
            == Truth(tmax.v.value < a.v.value + b.v.value || Wraps(a, b, tmin, tmax))
  {
    hide Half, ExprSigned, Less, AtMost, Plus;
    Bounds(a.t, b.t, tmin.t, tmax.t);
    ExprSignedMeans(a);
    if a.t.signed {
      SmallReads(a, 0);
      if a.v.value >= 0 {
        SumReads(a, b);
        LessReads(tmax, Plus(a, b));
      }
    } else {
      NonnegativeReads(tmax, a);
      if tmax.v.value < a.v.value { AddNegativeWraps(a, b, tmin, tmax); }
    }
  }

  lemma AddNegativeWraps(a: Outcome, b: Outcome, tmin: Outcome, tmax: Outcome)
    requires IsValue(a) && IsValue(b) && IsRange(tmin, tmax) && b.v.value < 0
    requires tmin.v.value <= a.v.value + b.v.value && !a.t.signed && tmax.v.value < a.v.value
    ensures Less(tmax, Plus(a, b))
            == Truth(tmax.v.value < a.v.value + b.v.value || (!Common(a.t, b.t).signed && a.v.value + b.v.value < 0))
  {
    hide Half, ExprSigned, Less, AtMost, Plus;
    Bounds(a.t, b.t, tmin.t, tmax.t);
    SumReads(a, b);
    LessReads(tmax, Plus(a, b));
  }

  lemma AddNegativeMeans(a: Outcome, b: Outcome, tmin: Outcome, tmax: Outcome)
    requires IsValue(a) && IsValue(b) && IsRange(tmin, tmax) && b.v.value < 0
    ensures AddNegative(a, b, tmin, tmax)
            == Truth(Outside(a.v.value + b.v.value, tmin, tmax) || Wraps(a, b, tmin, tmax))
  {
    hide Half, ExprSigned, Less, AtMost, Plus, Minus, Cond, AndAlso;
    AddNegativeLow(a, b, tmin, tmax);
    if tmin.v.value <= a.v.value + b.v.value { AddNegativeHigh(a, b, tmin, tmax); }
  }

  lemma AddToNegativeHigh(a: Outcome, b: Outcome, tmin: Outcome, tmax: Outcome)
    requires IsValue(a) && IsValue(b) && IsRange(tmin, tmax) && a.v.value < 0 <= b.v.value
    requires tmin.v.value <= a.v.value + b.v.value
    ensures AndAlso(OrElse(ExprSigned(Convert(a, b)), Less(tmax, b)), Less(tmax, Plus(a, b)))
            == Truth(tmax.v.value < a.v.value + b.v.value || Wraps(a, b, tmin, tmax))
  {
    hide Half, ExprSigned, Less, AtMost, Plus, Convert;
    Bounds(a.t, b.t, tmin.t, tmax.t);
    ExprSignedMeans(Convert(a, b));
    SumReads(a, b);
    if Common(a.t, b.t).signed {
      LessReads(tmax, Plus(a, b));
    } else {
      NonnegativeReads(tmax, b);
      if tmax.v.value < b.v.value { LessReads(tmax, Plus(a, b)); }
    }
  }

  lemma AddToNegativeMeans(a: Outcome, b: Outcome, tmin: Outcome, tmax: Outcome)
    requires IsValue(a) && IsValue(b) && IsRange(tmin, tmax) && a.v.value < 0 <= b.v.value
    ensures AddToNegative(a, b, tmin, tmax)
            == Truth(Outside(a.v.value + b.v.value, tmin, tmax) || Wraps(a, b, tmin, tmax))
  {
    hide Half, ExprSigned, Less, AtMost, Plus, Minus, Cond, AndAlso;
    AddNegativeLow(b, a, tmin, tmax);
    if tmin.v.value <= a.v.value + b.v.value { AddToNegativeHigh(a, b, tmin, tmax); }
  }

  lemma AddNonnegatives(a: Outcome, b: Outcome, tmin: Outcome, tmax: Outcome)
    requires IsValue(a) && IsValue(b) && IsRange(tmin, tmax) && 0 <= a.v.value && 0 <= b.v.value
    ensures OrElse(Less(tmax, b), Less(Minus(tmax, b), a)) == Truth(tmax.v.value < a.v.value + b.v.value)
  {
    hide Half, Less, Minus;
    Bounds(a.t, b.t, tmin.t, tmax.t);
    NonnegativeReads(tmax, b);
    SumReads(tmax, b);
    if b.v.value <= tmax.v.value { NonnegativeReads(Minus(tmax, b), a); }
  }

  lemma CondTruth(c: bool, x: Outcome, y: Outcome)
    requires x.t == INT && y.t == INT
    ensures c && IsValue(x) ==> Cond(Truth(c), x, y) == x
    ensures !c && IsValue(y) ==> Cond(Truth(c), x, y) == y
    ensures Cond(Truth(c), x, y).t == INT
  {}

  lemma TruthIsValue(b: bool)
    ensures IsValue(Truth(b))
  {
    HalfOfInt(INT);
  }

  /**
    For operands of any types and every range, the macro tells exactly whether the sum leaves
    the range, without overflowing itself - except for the operands of Wraps, for which it
    reports a sum inside of the range as outside.
   */
  lemma AddRange(a: Outcome, b: Outcome, tmin: Outcome, tmax: Outcome)
    requires IsValue(a) && IsValue(b) && IsRange(tmin, tmax)
    ensures AddRangeOverflow(a, b, tmin, tmax)
            == Truth(Outside(a.v.value + b.v.value, tmin, tmax) || Wraps(a, b, tmin, tmax))
    ensures Wraps(a, b, tmin, tmax) ==> !Outside(a.v.value + b.v.value, tmin, tmax)
  {
    hide Half, Less, Minus, Plus, AddNegative, AddToNegative, Cond, OrElse;
    SmallReads(b, 0);
    SmallReads(a, 0);
    TruthIsValue(true);
    TruthIsValue(false);
    if b.v.value < 0 {
      AddNegativeMeans(a, b, tmin, tmax);
    } else if a.v.value < 0 {
      AddToNegativeMeans(a, b, tmin, tmax);
    } else {
      AddNonnegatives(a, b, tmin, tmax);
    }
    var low, high := AddToNegative(a, b, tmin, tmax), OrElse(Less(tmax, b), Less(Minus(tmax, b), a));
    CondTruth(a.v.value < 0, low, high);
    CondTruth(b.v.value < 0, AddNegative(a, b, tmin, tmax), Cond(Truth(a.v.value < 0), low, high));
  }

  /**
    What a caller can check: for two types and a range the macro is exact on all operands if
    and only if the operands meet in a signed type, the range has no negative part, or the
    operand that may be negative cannot be less than -tmax - 1.
   */
  lemma AddExactForTypes(s: CType, t: CType, tmin: Outcome, tmax: Outcome)
    requires IsRange(tmin, tmax)
    ensures (forall a, b :: IsValue(Of(s, a)) && IsValue(Of(t, b)) ==>
               AddRangeOverflow(Of(s, a), Of(t, b), tmin, tmax) == Truth(Outside(a + b, tmin, tmax)))
            <==> Common(s, t).signed || tmin.v.value == 0
                 || (-tmax.v.value - 1 <= Lo(s) && -tmax.v.value - 1 <= Lo(t))
  {
    hide Half, AddRangeOverflow;
    Bounds(s, t, tmin.t, tmax.t);
    var x := tmax.v.value;
    if Common(s, t).signed || tmin.v.value == 0 || (-x - 1 <= Lo(s) && -x - 1 <= Lo(t)) {
      forall a, b | IsValue(Of(s, a)) && IsValue(Of(t, b))
        ensures AddRangeOverflow(Of(s, a), Of(t, b), tmin, tmax) == Truth(Outside(a + b, tmin, tmax))
      {
        AddRange(Of(s, a), Of(t, b), tmin, tmax);
      }
    } else if s.signed {
      AddRange(Of(s, -x - 2), Of(t, x + 1), tmin, tmax);
      assert Wraps(Of(s, -x - 2), Of(t, x + 1), tmin, tmax);
      assert IsValue(Of(s, -x - 2)) && IsValue(Of(t, x + 1));
    } else {
      AddRange(Of(s, x + 1), Of(t, -x - 2), tmin, tmax);
      assert Wraps(Of(s, x + 1), Of(t, -x - 2), tmin, tmax);
      assert IsValue(Of(s, x + 1)) && IsValue(Of(t, -x - 2));
    }
  }

  // ---------------------------------------------------------------- subtraction

  lemma SubtractAlikeMeans(a: Outcome, b: Outcome, tmin: Outcome, tmax: Outcome)
    requires IsValue(a) && IsValue(b) && IsRange(tmin, tmax) && (a.v.value < 0 <==> b.v.value < 0)
    ensures SubtractAlike(a, b, tmin, tmax) == Truth(Outside(a.v.value - b.v.value, tmin, tmax))
  {
    hide Half, Less, Minus, Cond;
    Bounds(a.t, b.t, tmin.t, tmax.t);
    NonnegativeReads(a, b);
    SumReads(a, b);
    SumReads(b, a);
    TruthIsValue(true);
    TruthIsValue(false);
    if a.v.value < b.v.value {
      if tmin.v.value != 0 { SubtractAlikeLow(a, b, tmin); }
    } else {
      NonnegativeReads(tmax, Minus(a, b));
    }
    CondTruth(a.v.value < b.v.value,
      OrElse(Negation(tmin), Less(Minus(Lit(-1), tmin), Minus(Minus(b, a), Lit(1)))), Less(tmax, Minus(a, b)));
  }

  lemma SubtractAlikeLow(a: Outcome, b: Outcome, tmin: Outcome)
    requires IsValue(a) && IsValue(b) && IsValue(tmin) && tmin.t.signed && tmin.v.value < 0
    requires a.v.value < b.v.value && (a.v.value < 0 <==> b.v.value < 0)
    ensures Less(Minus(Lit(-1), tmin), Minus(Minus(b, a), Lit(1))) == Truth(a.v.value - b.v.value < tmin.v.value)
  {
    hide Half, Less, Minus;
    Bounds(a.t, b.t, tmin.t, tmin.t);
    SmallReads(tmin, -1);
    SumReads(Lit(-1), tmin);
    SumReads(b, a);
    var d := Minus(b, a);
    SmallReads(d, 1);
    SumReads(d, Lit(1));
    NonnegativeReads(Minus(Lit(-1), tmin), Minus(d, Lit(1)));
  }

  lemma SubtractFromNegativeMeans(a: Outcome, b: Outcome, tmin: Outcome, tmax: Outcome)
    requires IsValue(a) && IsValue(b) && IsRange(tmin, tmax) && a.v.value < 0 <= b.v.value
    ensures SubtractFromNegative(a, b, tmin) == Truth(Outside(a.v.value - b.v.value, tmin, tmax))
  {
    hide Half, Less, Minus, Convert, ExprSigned;
    Bounds(a.t, b.t, tmin.t, tmax.t);
    SumReads(a, tmin);
    var d := Minus(a, tmin);
    ExprSignedMeans(Convert(d, b));
    SmallReads(d, 0);
    if Common(d.t, b.t).signed || d.v.value >= 0 { NonnegativeReads(d, b); }
  }

  /** tmax + b, compared with 0 before it is computed, if it could wrap around. */
  lemma SubtractNegativeGuard(a: Outcome, b: Outcome, tmax: Outcome)
    requires IsValue(a) && IsValue(b) && IsValue(tmax) && b.v.value < 0 <= a.v.value && 0 < tmax.v.value
    ensures AtMost(tmax, Minus(Lit(-1), b)) == Truth(tmax.v.value + b.v.value < 0)
  {
    hide Half, AtMost, Minus;
    Bounds(a.t, b.t, tmax.t, tmax.t);
    SmallReads(b, -1);
    SumReads(Lit(-1), b);
    NonnegativeReads(tmax, Minus(Lit(-1), b));
  }

  lemma SubtractNegativeSum(a: Outcome, b: Outcome, tmax: Outcome)
    requires IsValue(a) && IsValue(b) && IsValue(tmax) && b.v.value < 0 <= a.v.value && 0 < tmax.v.value
    requires (Common(tmax.t, b.t).signed && Common(Common(tmax.t, b.t), a.t).signed) || tmax.v.value + b.v.value >= 0
    ensures Less(Plus(tmax, b), a) == Truth(tmax.v.value + b.v.value < a.v.value)
  {
    hide Half, Less, Plus;
    Bounds(a.t, b.t, tmax.t, tmax.t);
    SumReads(tmax, b);
    NonnegativeReads(Plus(tmax, b), a);
  }

  lemma SubtractNegativeMeans(a: Outcome, b: Outcome, tmin: Outcome, tmax: Outcome)
    requires IsValue(a) && IsValue(b) && IsRange(tmin, tmax) && b.v.value < 0 <= a.v.value
    ensures SubtractNegative(a, b, tmax) == Truth(Outside(a.v.value - b.v.value, tmin, tmax))
  {
    hide Half, Less, AtMost, Minus, Plus, Convert, ExprSigned;
    ExprSignedMeans(Convert(tmax, b));
    ExprSignedMeans(Convert(Plus(tmax, b), a));
    SubtractNegativeGuard(a, b, tmax);
    if (Common(tmax.t, b.t).signed && Common(Common(tmax.t, b.t), a.t).signed) || tmax.v.value + b.v.value >= 0 {
      SubtractNegativeSum(a, b, tmax);
    }
  }

  /** For operands of any types and every range, the macro tells exactly whether the difference leaves the range. */
  lemma SubtractRange(a: Outcome, b: Outcome, tmin: Outcome, tmax: Outcome)
    requires IsValue(a) && IsValue(b) && IsRange(tmin, tmax)
    ensures SubtractRangeOverflow(a, b, tmin, tmax) == Truth(Outside(a.v.value - b.v.value, tmin, tmax))
  {
    hide Half, Less, Same, SubtractAlike, SubtractFromNegative, SubtractNegative, Cond;
    SmallReads(b, 0);
    SmallReads(a, 0);
    TruthIsValue(true);
    TruthIsValue(false);
    var na, nb := a.v.value < 0, b.v.value < 0;
    TruthIsValue(na);
    TruthIsValue(nb);
    NonnegativeReads(Truth(na), Truth(nb));
    if na == nb {
      SubtractAlikeMeans(a, b, tmin, tmax);
    } else if na {
      SubtractFromNegativeMeans(a, b, tmin, tmax);
    } else {
      SubtractNegativeMeans(a, b, tmin, tmax);
    }
    CondTruth(na, SubtractFromNegative(a, b, tmin), SubtractNegative(a, b, tmax));
    CondTruth(na == nb, SubtractAlike(a, b, tmin, tmax),
              Cond(Truth(na), SubtractFromNegative(a, b, tmin), SubtractNegative(a, b, tmax)));
  }

  // ------------------------------------------------------------- multiplication

  function Abs(x: int): nat {
    if x < 0 then -x else x
  }

  lemma DivSize(p: nat, q: nat)
    requires q > 0
    ensures 0 <= p / q <= p && (q > 1 && p > 0 ==> p / q < p)
  {
    Digits.DivLess(p, q, 0);
    Digits.DivLess(p, q, p + 1);
    Digits.MulMono(1, q, p + 1);
    if q > 1 && p > 0 {
      Digits.DivLess(p, q, p);
      Digits.MulMono(2, q, p);
    }
  }

  lemma QuotientAbs(x: int, d: int)
    requires d != 0
    ensures Quotient(x, d) == if (x < 0) == (d < 0) then Magnitude(x, d) else 0 - Magnitude(x, d)
    ensures 0 <= Magnitude(x, d) <= Abs(x) && (Abs(d) > 1 && Abs(x) > 0 ==> Magnitude(x, d) < Abs(x))
  {
    DivSize(Abs(x), Abs(d));
  }

  function Magnitude(x: int, d: int): int
    requires d != 0
  {
    Abs(x) / Abs(d)
  }

  lemma ProductAbs(n: int, d: int)
    ensures Abs(n) * Abs(d) == if (n < 0) == (d < 0) then n * d else -(n * d)
  {}

  /** A quotient compares as the product does, whatever the signs. */
  lemma QuotientCompares(x: int, d: int, n: int, y: int)
    requires d != 0 && y == n * d
    ensures x >= 0 && d > 0 && n >= 0 ==> (Quotient(x, d) < n <==> x < y)
    ensures x >= 0 && d < 0 && n < 0 ==> (n < Quotient(x, d) <==> x < y)
    ensures x <= 0 && d < 0 && n >= 0 ==> (Quotient(x, d) < n <==> y < x)
    ensures x <= 0 && d > 0 && n < 0 ==> (n < Quotient(x, d) <==> y < x)
  {
    hide Quotient;
    QuotientAbs(x, d);
    ProductAbs(n, d);
    Digits.DivLess(Abs(x), Abs(d), Abs(n));
    var k, m := Magnitude(x, d), Abs(n) * Abs(d);
    assert k < Abs(n) <==> Abs(x) < m;
    if x == 0 { assert k == 0; }
  }

  /** A quotient is no larger than the dividend, and smaller unless the divisor is 1 or -1. */
  lemma QuotientSize(x: int, d: int)
    requires d != 0
    ensures Small(x, d, Quotient(x, d))
  {
    hide Quotient, Small, Magnitude;
    QuotientAbs(x, d);
    SignedSize(x, d, Magnitude(x, d));
  }

  predicate Small(x: int, d: int, q: int) {
    && (if (x <= 0) == (d < 0) then 0 <= q else q <= 0)
    && (if x < 0 then x <= q <= -x else -x <= q <= x)
    && (d < -1 && x < 0 ==> q < -x)
  }

  lemma SignedSize(x: int, d: int, k: nat)
    requires d != 0 && k <= Abs(x) && (Abs(d) > 1 && Abs(x) > 0 ==> k < Abs(x))
    ensures Small(x, d, if (x < 0) == (d < 0) then k else 0 - k)
  {}

  lemma OverReads(x: Outcome, y: Outcome)
    requires IsValue(x) && IsValue(y) && y.v.value != 0
    requires Common(x.t, y.t).signed || (x.v.value >= 0 && y.v.value >= 0)
    ensures Over(x, y) == Fit(Common(x.t, y.t), Quotient(x.v.value, y.v.value))
  {
    hide Half, To, Fit, Quotient;
    CommonSame(x.t, y.t);
    ToReads(x, y.t);
    ToReads(y, x.t);
  }

  lemma ConvertReads(e: Outcome, v: Outcome)
    requires IsValue(v)
    ensures var c := Common(e.t, v.t); Convert(e, v) == Of(c, Read(c, v.v.value)) && IsValue(Convert(e, v))
  {
    hide Half, Remainder;
    Bounds(e.t, v.t, e.t, v.t);
    var zero := Cond(Truth(true), Lit(0), e);
    assert zero == Of(e.t, 0);
    SumReads(zero, v);
    ToReads(v, e.t);
    CommonSame(e.t, v.t);
  }

  /** The shift expression evaluates to the greatest value of a signed type, and its complement to the least. */
  lemma SignedMaximumMeans(e: Outcome)
    requires e.t.signed
    ensures SignedMaximum(e) == Of(e.t, Hi(e.t)) && Complement(Of(e.t, Hi(e.t))) == Of(e.t, Lo(e.t))
  {
    HalfOfInt(e.t);
    HalfOfInt(INT);
    var h: int := Pow2(e.t.width - 2);
    assert Half(e.t) == 2 * h;
    var one := Convert(e, Lit(1));
    ConvertReads(e, Lit(1));
    hide Half, Pow2, Convert, Remainder, Read;
    IntCommon(e.t);
    assert 1 * h == h;
    assert ShiftLeft(one, e.t.width - 2) == Of(e.t, h);
  }

  lemma IntCommon(t: CType)
    ensures Common(t, INT) == t == Common(INT, t)
    ensures forall n :: 0 <= n <= 2 ==> Fits(t, n) && Fits(INT, n)
  {
    hide Half;
    HalfOfInt(t);
    HalfOfInt(INT);
  }

  lemma MultiplyTypes(a: Outcome, b: Outcome, tmin: Outcome, tmax: Outcome)
    ensures MultiplyNegatives(a, b, tmax).t == MultiplyByNegative(a, b, tmin).t == MultiplyNegative(a, b, tmin).t == INT
  {
    hide Less, AtMost, AndAlso, Over, Plus, Minus, Cond, Same, ExprSigned, NegateOverflow, Convert;
  }

  /** Negation overflows exactly if the result does not fit; the extrema come from the type of the operand. */
  lemma NegateOverflowMeans(x: Outcome)
    requires IsValue(x)
    ensures NegateOverflow(x) == Truth(!Fits(x.t, -x.v.value))
  {
    hide Half, ExprSigned, SignedMaximum, Complement, Convert, Less, Remainder;
    HalfOfInt(x.t);
    HalfOfInt(INT);
    IntCommon(x.t);
    ExprSignedMeans(x);
    if x.t.signed {
      SignedMaximumMeans(x);
      SmallReads(Of(x.t, Lo(x.t)), 0);
      LessReads(x, Of(x.t, -Hi(x.t)));
    } else {
      ConvertReads(x, Lit(0));
      SmallReads(Of(x.t, 0), 0);
      SmallReads(x, 0);
    }
  }

  lemma MultiplyNegativesSigned(a: Outcome, b: Outcome, tmin: Outcome, tmax: Outcome, y: int)
    requires IsValue(a) && IsValue(b) && IsRange(tmin, tmax) && a.v.value < 0 && b.v.value < 0
    requires Common(tmax.t, b.t).signed && y == a.v.value * b.v.value
    ensures Less(a, Over(tmax, b)) == Truth(tmax.v.value < y)
  {
    hide Half, Less, Over, Quotient;
    Bounds(a.t, b.t, tmin.t, tmax.t);
    OverReads(tmax, b);
    QuotientCompares(tmax.v.value, b.v.value, a.v.value, y);
    QuotientSize(tmax.v.value, b.v.value);
    NonnegativeReads(a, Over(tmax, b));
  }

  /** tmax / -b, or the shift that stands for it when -b would overflow. */
  lemma MagnitudeQuotient(b: Outcome, tmax: Outcome)
    requires IsValue(b) && IsValue(tmax) && b.v.value < 0 < tmax.v.value && !Common(tmax.t, b.t).signed
    ensures Cond(NegateOverflow(b), ShiftRight(Convert(b, tmax), b.t.width - 1), Over(tmax, Opposite(b)))
            == Of(tmax.t, Quotient(tmax.v.value, -b.v.value))
    ensures 0 <= Quotient(tmax.v.value, -b.v.value) <= tmax.v.value && b.t.width <= tmax.t.width
  {
    hide Half, NegateOverflow, Convert, Over, Quotient, Floor;
    Bounds(b.t, tmax.t, b.t, tmax.t);
    NegateOverflowMeans(b);
    ConvertReads(b, tmax);
    QuotientSize(tmax.v.value, -b.v.value);
    FloorIsQuotient(tmax.v.value, b.t);
    if Fits(b.t, -b.v.value) { OverReads(tmax, Opposite(b)); }
  }

  lemma FloorIsQuotient(x: nat, t: CType)
    ensures Floor(x, Pow2(t.width - 1)) == Quotient(x, Half(t))
  {}

  lemma MultiplyNegativesUnsigned(a: Outcome, b: Outcome, tmin: Outcome, tmax: Outcome, y: int)
    requires IsValue(a) && IsValue(b) && IsRange(tmin, tmax) && a.v.value < 0 && b.v.value < 0
    requires !Common(tmax.t, b.t).signed && y == a.v.value * b.v.value
    ensures AtMost(
              Cond(NegateOverflow(b), ShiftRight(Convert(b, tmax), b.t.width - 1), Over(tmax, Opposite(b))),
              Minus(Lit(-1), a)) == Truth(tmax.v.value < y)
  {
    hide Half, Cond, AtMost, Minus, NegateOverflow, ShiftRight, Convert, Over, Opposite, Quotient;
    Bounds(a.t, b.t, tmin.t, tmax.t);
    MagnitudeQuotient(b, tmax);
    var q := Quotient(tmax.v.value, -b.v.value);
    SmallReads(a, -1);
    SumReads(Lit(-1), a);
    NonnegativeReads(Of(tmax.t, q), Minus(Lit(-1), a));
    assert (-a.v.value) * (-b.v.value) == y;
    QuotientCompares(tmax.v.value, -b.v.value, -a.v.value, y);
  }

  lemma MultiplyNegativesMeans(a: Outcome, b: Outcome, tmin: Outcome, tmax: Outcome, y: int)
    requires IsValue(a) && IsValue(b) && IsRange(tmin, tmax) && a.v.value < 0 && b.v.value < 0
    requires y == a.v.value * b.v.value
    ensures MultiplyNegatives(a, b, tmax) == Truth(tmax.v.value < y)
  {
    hide Half, Less, Cond, AtMost, Minus, NegateOverflow, ShiftRight, Convert, Over, Opposite, ExprSigned;
    ExprSignedMeans(Convert(tmax, b));
    TruthIsValue(true);
    TruthIsValue(false);
    if Common(tmax.t, b.t).signed {
      MultiplyNegativesSigned(a, b, tmin, tmax, y);
    } else {
      MultiplyNegativesUnsigned(a, b, tmin, tmax, y);
    }
    CondTruth(Common(tmax.t, b.t).signed, Less(a, Over(tmax, b)),
      AtMost(
        Cond(NegateOverflow(b), ShiftRight(Convert(b, tmax), b.t.width - 1), Over(tmax, Opposite(b))),
        Minus(Lit(-1), a)));
  }

  /** Is the quotient tmin / q the one that overflows, the least value of the common type by -1? */
  predicate LeastByMinusOne(q: Outcome, tmin: Outcome)
    requires IsValue(q) && IsValue(tmin)
  {
    q.v.value == -1 && tmin.v.value == Lo(Common(q.t, tmin.t))
  }

  lemma LeastTest(q: Outcome, tmin: Outcome)
    requires IsValue(q) && IsValue(tmin) && q.v.value < 0 && tmin.t.signed
    ensures AndAlso(NegateOverflow(Convert(q, tmin)), Same(q, Lit(-1))) == Truth(LeastByMinusOne(q, tmin))
  {
    hide Half, NegateOverflow, Convert, Same;
    Bounds(q.t, tmin.t, q.t, tmin.t);
    ConvertReads(q, tmin);
    NegateOverflowMeans(Convert(q, tmin));
    SmallReads(q, -1);
  }

  lemma QuotientBelow(p: Outcome, q: Outcome, tmin: Outcome, y: int)
    requires IsValue(p) && IsValue(q) && IsValue(tmin) && tmin.t.signed && tmin.v.value <= 0
    requires q.v.value < 0 <= p.v.value && !LeastByMinusOne(q, tmin) && y == p.v.value * q.v.value
    ensures Less(Over(tmin, q), p) == Truth(y < tmin.v.value)
  {
    hide Half, Less, Over, Quotient;
    Bounds(p.t, q.t, tmin.t, tmin.t);
    CommonSame(q.t, tmin.t);
    OverReads(tmin, q);
    QuotientCompares(tmin.v.value, q.v.value, p.v.value, y);
    QuotientSize(tmin.v.value, q.v.value);
    NonnegativeReads(Over(tmin, q), p);
  }

  /** -p < tmin, without overflow. */
  lemma OppositeBelow(p: Outcome, tmin: Outcome)
    requires IsValue(p) && IsValue(tmin) && tmin.t.signed && tmin.v.value < 0 <= p.v.value
    ensures p.t.signed ==> Less(Lit(0), Plus(p, tmin)) == Truth(-p.v.value < tmin.v.value)
    ensures p.v.value > 0 && !p.t.signed ==>
              Less(Minus(Lit(-1), tmin), Minus(p, Lit(1))) == Truth(-p.v.value < tmin.v.value)
  {
    hide Half, Less, Plus, Minus;
    Bounds(p.t, tmin.t, p.t, tmin.t);
    if p.t.signed {
      SumReads(p, tmin);
      SmallReads(Plus(p, tmin), 0);
    } else if p.v.value > 0 {
      SmallReads(tmin, -1);
      SmallReads(p, 1);
      SumReads(Lit(-1), tmin);
      SumReads(p, Lit(1));
      NonnegativeReads(Minus(Lit(-1), tmin), Minus(p, Lit(1)));
    }
  }

  lemma MultiplyByNegativeMeans(a: Outcome, b: Outcome, tmin: Outcome, tmax: Outcome, y: int)
    requires IsValue(a) && IsValue(b) && IsRange(tmin, tmax) && b.v.value < 0 <= a.v.value
    requires y == a.v.value * b.v.value
    ensures MultiplyByNegative(a, b, tmin) == Truth(y < tmin.v.value)
  {
    hide Half, Less, Over, Plus, Minus, AndAlso, Same, NegateOverflow, Convert, ExprSigned, Cond;
    LeastTest(b, tmin);
    ExprSignedMeans(a);
    SmallReads(a, 0);
    TruthIsValue(true);
    TruthIsValue(false);
    ProductSign(a.v.value, b.v.value);
    var signedCase := Less(Lit(0), Plus(a, tmin));
    var unsignedCase := AndAlso(Less(Lit(0), a), Less(Minus(Lit(-1), tmin), Minus(a, Lit(1))));
    if LeastByMinusOne(b, tmin) {
      HalfOfInt(Common(b.t, tmin.t));
      OppositeBelow(a, tmin);
      ShortCircuit(0 < a.v.value, Less(Minus(Lit(-1), tmin), Minus(a, Lit(1))));
    } else {
      QuotientBelow(a, b, tmin, y);
    }
    CondTruth(a.t.signed, signedCase, unsignedCase);
    CondTruth(LeastByMinusOne(b, tmin), Cond(Truth(a.t.signed), signedCase, unsignedCase), Less(Over(tmin, b), a));
  }

  lemma ShortCircuit(c: bool, x: Outcome)
    ensures !c ==> AndAlso(Truth(c), x) == Truth(false)
    ensures c && (x == Truth(true) || x == Truth(false)) ==> AndAlso(Truth(c), x) == x
  {}

  lemma MultiplyNegativeMeans(a: Outcome, b: Outcome, tmin: Outcome, tmax: Outcome, y: int)
    requires IsValue(a) && IsValue(b) && IsRange(tmin, tmax) && a.v.value < 0 < b.v.value
    requires y == a.v.value * b.v.value
    ensures MultiplyNegative(a, b, tmin) == Truth(y < tmin.v.value)
  {
    hide Half, Less, Over, Plus, Minus, AndAlso, Same, NegateOverflow, Convert, ExprSigned, Cond;
    LeastTest(a, tmin);
    ExprSignedMeans(b);
    TruthIsValue(true);
    TruthIsValue(false);
    ProductSign(a.v.value, b.v.value);
    var signedCase, unsignedCase := Less(Lit(0), Plus(b, tmin)), Less(Minus(Lit(-1), tmin), Minus(b, Lit(1)));
    if LeastByMinusOne(a, tmin) {
      HalfOfInt(Common(a.t, tmin.t));
      OppositeBelow(b, tmin);
    } else {
      QuotientBelow(b, a, tmin, y);
    }
    CondTruth(b.t.signed, signedCase, unsignedCase);
    CondTruth(LeastByMinusOne(a, tmin), Cond(Truth(b.t.signed), signedCase, unsignedCase), Less(Over(tmin, a), b));
  }

  lemma ProductSign(a: int, b: int)
    ensures a * b == b * a
    ensures (a < 0 && b < 0) || (a >= 0 && b >= 0) ==> a * b >= 0
    ensures (a <= 0 && b >= 0) || (a >= 0 && b <= 0) ==> a * b <= 0
    ensures b == -1 ==> a * b == -a
    ensures a == -1 ==> a * b == -b
    ensures b == 0 ==> a * b == 0
  {}

  lemma MultiplyNonnegatives(a: Outcome, b: Outcome, tmax: Outcome, y: int)
    requires IsValue(a) && IsValue(b) && IsValue(tmax) && 0 <= a.v.value && 0 < b.v.value && 0 < tmax.v.value
    requires y == a.v.value * b.v.value
    ensures Less(Over(tmax, b), a) == Truth(tmax.v.value < y)
  {
    hide Half, Less, Over, Quotient;
    Bounds(a.t, b.t, tmax.t, tmax.t);
    OverReads(tmax, b);
    QuotientCompares(tmax.v.value, b.v.value, a.v.value, y);
    QuotientSize(tmax.v.value, b.v.value);
    NonnegativeReads(Over(tmax, b), a);
  }

  /** For operands of any types and every range, the macro tells exactly whether the product leaves the range. */
  lemma MultiplyRange(a: Outcome, b: Outcome, tmin: Outcome, tmax: Outcome)
    requires IsValue(a) && IsValue(b) && IsRange(tmin, tmax)
    ensures MultiplyRangeOverflow(a, b, tmin, tmax) == Truth(Outside(a.v.value * b.v.value, tmin, tmax))
  {
    hide Half, Less, Over, Same, MultiplyNegatives, MultiplyByNegative, MultiplyNegative, Cond;
    var y := a.v.value * b.v.value;
    var na, nb, zb := a.v.value < 0, b.v.value < 0, b.v.value == 0;
    ProductSign(a.v.value, b.v.value);
    SmallReads(a, 0);
    SmallReads(b, 0);
    MultiplyTypes(a, b, tmin, tmax);
    TruthIsValue(true);
    TruthIsValue(false);
    var both, byB, byA := MultiplyNegatives(a, b, tmax), MultiplyByNegative(a, b, tmin), MultiplyNegative(a, b, tmin);
    var none := Less(Over(tmax, b), a);
    if na && nb { MultiplyNegativesMeans(a, b, tmin, tmax, y); }
    else if nb { MultiplyByNegativeMeans(a, b, tmin, tmax, y); }
    else if na && !zb { MultiplyNegativeMeans(a, b, tmin, tmax, y); }
    else if !zb { MultiplyNonnegatives(a, b, tmax, y); }
    CondTruth(na, both, byB);
    CondTruth(na, byA, none);
    CondTruth(zb, Lit(0), Cond(Truth(na), byA, none));
    CondTruth(nb, Cond(Truth(na), both, byB), Cond(Truth(zb), Lit(0), Cond(Truth(na), byA, none)));
  }

  // ------------------------------------- the simple forms, for a whole type

  lemma NegateRange(t: CType, a: int)
    requires Fits(t, a)
    ensures NegateRangeOverflow(Of(t, a), Of(t, Lo(t)), Of(t, Hi(t))) == Truth(!Fits(t, -a))
  {
    hide Half, Less;
    HalfOfInt(t);
    HalfOfInt(INT);
    SmallReads(Of(t, Lo(t)), 0);
    SmallReads(Of(t, a), 0);
    if t.signed { LessReads(Of(t, a), Of(t, -Hi(t))); }
  }

  lemma IntAddRange(t: CType, a: int, b: int)
    requires Fits(t, a) && Fits(t, b)
    ensures IntAddRangeOverflow(Of(t, a), Of(t, b), Of(t, Lo(t)), Of(t, Hi(t))) == Truth(!Fits(t, a + b))
  {
    hide Half, Less, Minus;
    HalfOfInt(INT);
    SmallReads(Of(t, b), 0);
    SumReads(Of(t, Lo(t)), Of(t, b));
    SumReads(Of(t, Hi(t)), Of(t, b));
    if b < 0 { NonnegativeReads(Of(t, a), Minus(Of(t, Lo(t)), Of(t, b))); }
    else { NonnegativeReads(Minus(Of(t, Hi(t)), Of(t, b)), Of(t, a)); }
  }

  lemma IntSubtractRange(t: CType, a: int, b: int)
    requires Fits(t, a) && Fits(t, b)
    ensures IntSubtractRangeOverflow(Of(t, a), Of(t, b), Of(t, Lo(t)), Of(t, Hi(t))) == Truth(!Fits(t, a - b))
  {
    hide Half, Less, Plus;
    HalfOfInt(INT);
    SmallReads(Of(t, b), 0);
    SumReads(Of(t, Lo(t)), Of(t, b));
    SumReads(Of(t, Hi(t)), Of(t, b));
    if b < 0 { NonnegativeReads(Plus(Of(t, Hi(t)), Of(t, b)), Of(t, a)); }
    else { NonnegativeReads(Of(t, a), Plus(Of(t, Lo(t)), Of(t, b))); }
  }

  /** A quotient by a number other than -1, or of a number other than the least, fits. */
  lemma QuotientFits(t: CType, x: int, d: int)
    requires Fits(t, x) && Fits(t, d) && d != 0 && (d != -1 || x != Lo(t))
    ensures Over(Of(t, x), Of(t, d)) == Of(t, Quotient(x, d)) && Fits(t, Quotient(x, d))
  {
    hide Half, Over, Quotient;
    OverReads(Of(t, x), Of(t, d));
    QuotientSize(x, d);
  }

  lemma IntMultiplyRange(t: CType, a: int, b: int)
    requires Fits(t, a) && Fits(t, b)
    ensures IntMultiplyRangeOverflow(Of(t, a), Of(t, b), Of(t, Lo(t)), Of(t, Hi(t))) == Truth(!Fits(t, a * b))
  {
    hide Half, Less, Over, Quotient, Same;
    HalfOfInt(t);
    HalfOfInt(INT);
    SmallReads(Of(t, a), 0);
    SmallReads(Of(t, b), 0);
    ProductSign(a, b);
    if b < 0 { SmallReads(Of(t, b), -1); }
    if b != 0 {
      QuotientCompares(Hi(t), b, a, a * b);
      QuotientCompares(Lo(t), b, a, a * b);
      QuotientFits(t, Hi(t), b);
      LessReads(Of(t, a), Of(t, Quotient(Hi(t), b)));
      LessReads(Of(t, Quotient(Hi(t), b)), Of(t, a));
      if b != -1 {
        QuotientFits(t, Lo(t), b);
        LessReads(Of(t, a), Of(t, Quotient(Lo(t), b)));
        LessReads(Of(t, Quotient(Lo(t), b)), Of(t, a));
      }
    }
  }

  lemma IntDivideRange(t: CType, a: int, b: int)
    requires Fits(t, a) && Fits(t, b) && b != 0
    ensures IntDivideRangeOverflow(Of(t, a), Of(t, b), Of(t, Lo(t)), Of(t, Hi(t))) == Truth(!Fits(t, Quotient(a, b)))
  {
    hide Half, Less, Quotient, Same;
    HalfOfInt(t);
    HalfOfInt(INT);
    SmallReads(Of(t, Lo(t)), 0);
    QuotientByMinusOne(a);
    if t.signed {
      SmallReads(Of(t, b), -1);
      LessReads(Of(t, a), Of(t, -Hi(t)));
    }
    if b != -1 || a != Lo(t) { QuotientFits(t, a, b); }
  }

  lemma QuotientByMinusOne(a: int)
    ensures Quotient(a, -1) == -a
  {}

  lemma IntLeftShiftRange(t: CType, a: int, k: nat)
    requires Fits(t, a) && k < t.width
    ensures IntLeftShiftRangeOverflow(Of(t, a), k, Of(t, Lo(t)), Of(t, Hi(t))) == Truth(!Fits(t, a * Pow2(k)))
  {
    hide Half, Pow2, Floor, Less;
    HalfOfInt(t);
    HalfOfInt(INT);
    var p := Pow2(k);
    ProductSign(a, p);
    SmallReads(Of(t, a), 0);
    if a < 0 {
      FloorOfLow(t, a, k, a * p);
      LessReads(Of(t, a), Of(t, Floor(Lo(t), p)));
    } else {
      FloorOfHigh(Hi(t), a, p, a * p);
      LessReads(Of(t, Floor(Hi(t), p)), Of(t, a));
    }
  }

  lemma FloorOfHigh(hi: nat, a: nat, p: nat, y: int)
    requires p > 0 && y == a * p
    ensures Floor(hi, p) < a <==> hi < y
    ensures 0 <= Floor(hi, p) <= hi
  {
    Digits.DivLess(hi, p, a);
    DivSize(hi, p);
  }

  /** The least value of a signed type is a multiple of 2^k. */
  lemma FloorOfLow(t: CType, a: int, k: nat, y: int)
    requires t.signed && k < t.width && a < 0 && y == a * Pow2(k)
    ensures a < Floor(Lo(t), Pow2(k)) <==> y < Lo(t)
    ensures Fits(t, Floor(Lo(t), Pow2(k)))
  {
    var p, q := Pow2(k), Pow2(t.width - 1 - k);
    Pow2Add(t.width - 1 - k, k);
    assert Lo(t) == 0 - q * p;
    hide Pow2;
    NegatedProduct(q, p);
    ModUnique(Lo(t), p, 0 - q, 0);
    Digits.MulMono(1, p, q);
    if a < 0 - q { Gap(0 - q, a, p); }
    if 0 - q < a { Gap(a, 0 - q, p); }
  }

  lemma NegatedProduct(q: int, p: int)
    ensures (0 - q) * p == 0 - q * p
  {}

  // ------------------------------------------------- storing the low-order bits

  datatype Operator = Add | Subtract | Multiply

  function Exact(op: Operator, a: int, b: int): int {
    match op
    case Add => a + b
    case Subtract => a - b
    case Multiply => a * b
  }

  /** The range predicate that goes with an operator. */
  function RangeOverflow(op: Operator, a: Outcome, b: Outcome, tmin: Outcome, tmax: Outcome): Outcome {
    match op
    case Add => AddRangeOverflow(a, b, tmin, tmax)
    case Subtract => SubtractRangeOverflow(a, b, tmin, tmax)
    case Multiply => MultiplyRangeOverflow(a, b, tmin, tmax)
  }

  /** The operands for which the predicate reports an overflow that is none. */
  predicate Misjudged(op: Operator, a: Outcome, b: Outcome, tmin: Outcome, tmax: Outcome)
    requires IsValue(a) && IsValue(b) && IsRange(tmin, tmax)
  {
    op == Add && Wraps(a, b, tmin, tmax)
  }

  lemma RangeOverflowMeans(op: Operator, a: Outcome, b: Outcome, tmin: Outcome, tmax: Outcome)
    requires IsValue(a) && IsValue(b) && IsRange(tmin, tmax)
    ensures RangeOverflow(op, a, b, tmin, tmax)
            == Truth(Outside(Exact(op, a.v.value, b.v.value), tmin, tmax) || Misjudged(op, a, b, tmin, tmax))
    ensures Misjudged(op, a, b, tmin, tmax) ==> Exact(op, a.v.value, b.v.value) < 0
    ensures Misjudged(op, a, b, tmin, tmax) ==> !Outside(Exact(op, a.v.value, b.v.value), tmin, tmax)
  {
    hide AddRangeOverflow, SubtractRangeOverflow, MultiplyRangeOverflow, Half;
    match op
    case Add => AddRange(a, b, tmin, tmax);
    case Subtract => SubtractRange(a, b, tmin, tmax);
    case Multiply => MultiplyRange(a, b, tmin, tmax);
  }

  /** Computing with remainders changes a result by a multiple of the modulus. */
  lemma ExactMod(op: Operator, a: int, b: int, qa: int, qb: int, ra: int, rb: int, u: nat) returns (q: int)
    requires a == qa * u + ra && b == qb * u + rb
    ensures Exact(op, a, b) == Exact(op, ra, rb) + q * u
  {
    match op {
      case Add => q := qa + qb;
        assert q * u == qa * u + qb * u;
      case Subtract => q := qa - qb;
        assert q * u == qa * u - qb * u;
      case Multiply => q := qa * b + ra * qb;
        ProductMod(a, b, qa, qb, ra, rb, u);
    }
  }

  /** Computing in the unsigned type with k * p values does not change the low-order bits. */
  lemma ViaUnsigned(op: Operator, a: int, b: int, p: nat, k: nat) returns (q: int)
    requires p > 0 && k > 0 && k * p > 0
    ensures Exact(op, a, b) == (Exact(op, a % (k * p), b % (k * p)) % (k * p)) + q * p
  {
    hide Exact;
    var u := k * p;
    var q0 := ExactMod(op, a, b, a / u, b / u, a % u, b % u, u);
    var e := Exact(op, a % u, b % u);
    q := (q0 + e / u) * k;
    assert e == (e / u) * u + e % u;
    Regroup(q0, e / u, k, p);
  }

  lemma Regroup(x: int, y: int, k: int, p: int)
    ensures x * (k * p) + y * (k * p) == ((x + y) * k) * p
  {
    assert (x + y) * (k * p) == ((x + y) * k) * p;
    assert (x + y) * (k * p) == x * (k * p) + y * (k * p);
  }

  lemma ProductMod(a: int, b: int, qa: int, qb: int, ra: int, rb: int, u: nat)
    requires a == qa * u + ra && b == qb * u + rb
    ensures a * b == ra * rb + (qa * b + ra * qb) * u
  {
    assert a * b == (qa * u) * b + ra * b;
    assert (qa * u) * b == (qa * b) * u;
    assert ra * b == ra * (qb * u) + ra * rb;
    assert ra * (qb * u) == (ra * qb) * u;
    assert (qa * b + ra * qb) * u == (qa * b) * u + (ra * qb) * u;
  }

  /** _GL_INT_OP_WRAPV_VIA_UNSIGNED: compute in an unsigned type with k * p values, convert to one with p. */
  function WrapViaUnsigned(op: Operator, a: int, b: int, p: nat, k: nat, signed: bool): int
    requires p > 0 && k > 0 && k * p > 0
  {
    Converted(p, signed, Exact(op, a % (k * p), b % (k * p)) % (k * p))
  }

  lemma WrapIsLowOrder(op: Operator, a: int, b: int, p: nat, k: nat, signed: bool)
    requires p > 0 && p % 2 == 0 && k > 0 && k * p > 0
    ensures WrapViaUnsigned(op, a, b, p, k, signed) == Converted(p, signed, Exact(op, a, b))
  {
    hide Exact;
    var q := ViaUnsigned(op, a, b, p, k);
    var v := Exact(op, a % (k * p), b % (k * p)) % (k * p);
    var r := Converted(p, signed, v);
    ConvertedInRange(p, signed, v);
    var q': int :| v == r + q' * p;
    assert (q + q') * p == q * p + q' * p;
    ConvertedUnique(p, signed, Exact(op, a, b), r, q + q');
  }

  /** The extrema of a type with p values, as expressions. */
  predicate AreExtrema(p: nat, signed: bool, tmin: Outcome, tmax: Outcome) {
    IsRange(tmin, tmax) && tmin.v.value == LeastStored(p, signed) && tmax.v.value == MostStored(p, signed)
  }

  /**
    _GL_INT_OP_CALC: stores the low-order bits, and tells whether they are the whole result -
    except for the additions that the predicate misjudges, where they are and it says no.
   */
  method OpCalc(op: Operator, a: Outcome, b: Outcome, p: nat, k: nat, signed: bool, tmin: Outcome, tmax: Outcome)
      returns (r: int, overflow: bool)
    requires p > 0 && p % 2 == 0 && k > 0 && k * p > 0
    requires IsValue(a) && IsValue(b) && AreExtrema(p, signed, tmin, tmax)
    ensures LeastStored(p, signed) <= r <= MostStored(p, signed)
    ensures exists q: int :: Exact(op, a.v.value, b.v.value) == r + q * p
    ensures overflow <==> r != Exact(op, a.v.value, b.v.value) || Misjudged(op, a, b, tmin, tmax)
  {
    hide RangeOverflow, WrapViaUnsigned, Converted, Exact, LeastStored, MostStored, Misjudged, Half;
    var e := Exact(op, a.v.value, b.v.value);
    RangeOverflowMeans(op, a, b, tmin, tmax);
    WrapIsLowOrder(op, a.v.value, b.v.value, p, k, signed);
    ConvertedInRange(p, signed, e);
    var outcome := RangeOverflow(op, a, b, tmin, tmax);
    r := WrapViaUnsigned(op, a.v.value, b.v.value, p, k, signed);
    overflow := outcome.v.value != 0;
    if !Outside(e, tmin, tmax) { StoredExactly(p, signed, e); }
  }

  /**
    _GL_INT_OP_WRAPV_SMALLISH without typeof: the macro does not know whether *r is signed,
    stores the signed value, and finds out from the sign of what has been stored.
   */
  method OpWrapvSmallish(op: Operator, a: Outcome, b: Outcome, p: nat, k: nat, signed: bool,
                         smin: Outcome, smax: Outcome, zero: Outcome, umax: Outcome)
      returns (r: int, overflow: bool)
    requires p > 2 && p % 2 == 0 && k > 0 && k * p > 0
    requires IsValue(a) && IsValue(b) && AreExtrema(p, true, smin, smax) && AreExtrema(p, false, zero, umax)
    ensures LeastStored(p, signed) <= r <= MostStored(p, signed)
    ensures exists q: int :: Exact(op, a.v.value, b.v.value) == r + q * p
    ensures overflow <==>
              r != Exact(op, a.v.value, b.v.value) || (signed && Misjudged(op, a, b, smin, smax))
  {
    hide RangeOverflow, WrapViaUnsigned, Converted, Exact, Half;
    var e := Exact(op, a.v.value, b.v.value);
    RangeOverflowMeans(op, a, b, smin, smax);
    RangeOverflowMeans(op, a, b, zero, umax);
    WrapIsLowOrder(op, a.v.value, b.v.value, p, k, true);
    var asSigned := RangeOverflow(op, a, b, smin, smax).v.value != 0;
    var asUnsigned := RangeOverflow(op, a, b, zero, umax).v.value != 0;
    var v := WrapViaUnsigned(op, a.v.value, b.v.value, p, k, true);
    r := Converted(p, signed, v);
    ConvertedTwice(p, signed, e);
    ConvertedInRange(p, signed, e);
    overflow := if asSigned then if asUnsigned then true else r < 0
                else if asUnsigned then r >= 0 else false;
    if !Outside(e, smin, smax) && signed { StoredExactly(p, true, e); }
    if !Outside(e, zero, umax) && !signed { StoredExactly(p, false, e); }
    if Outside(e, smin, smax) && !Outside(e, zero, umax) && signed {
      assert e == (e - p) + 1 * p;
      ConvertedUnique(p, true, e, e - p, 1);
    }
  }

  // ----------------------------------------------- the length of a printed integer

  /** INT_BITS_STRLEN_BOUND */
  function BitsStrlenBound(b: nat): nat {
    (b * 146 + 484) / 485
  }

  /** INT_STRLEN_BOUND, for a type of w bits that is known to be signed or unsigned */
  function StrlenBound(w: nat, signed: bool): nat
    requires signed ==> 1 <= w
  {
    if signed then BitsStrlenBound(w - 1) + 1 else BitsStrlenBound(w)
  }

  lemma {:induction false} PowerAdd(x: nat, m: nat, n: nat)
    ensures Power(x, m + n) == Power(x, m) * Power(x, n)
  {
    if n > 0 {
      PowerAdd(x, m, n - 1);
      Associate(Power(x, m), Power(x, n - 1), x);
    }
  }

  lemma Associate(x: int, y: int, z: int)
    ensures (x * y) * z == x * (y * z)
  {}

  lemma {:induction false} PowerTimes(x: nat, m: nat, n: nat)
    ensures Power(x, m * n) == Power(Power(x, m), n)
    decreases n
  {
    hide Power;
    PowerUnfolds(Power(x, m), n);
    if n > 0 {
      assert m * n == m * (n - 1) + m;
      PowerAdd(x, m * (n - 1), m);
      PowerTimes(x, m, n - 1);
    } else {
      assert m * n == 0;
      PowerUnfolds(x, 0);
    }
  }

  lemma PowerUnfolds(x: nat, n: nat)
    ensures Power(x, n) == if n == 0 then 1 else Power(x, n - 1) * x
  {}

  lemma ProductOrder(a: nat, b: nat, c: nat, d: nat)
    requires a <= b && c <= d
    ensures a * c <= b * d
    ensures a < b && 0 < d ==> a * c < b * d
  {
    Digits.MulMono(a, b, c);
    Digits.MulMono(c, d, b);
    if a < b && 0 < d { Gap(b, a, d); Digits.MulMono(c, d, a); }
  }

  lemma {:induction false} PowerOrder(x: nat, y: nat, n: nat)
    requires x <= y
    ensures Power(x, n) <= Power(y, n)
    ensures x < y && n > 0 ==> Power(x, n) < Power(y, n)
  {
    if n > 0 {
      PowerOrder(x, y, n - 1);
      if y > 0 { PowerPositive(y, n - 1); }
      ProductOrder(x, y, Power(x, n - 1), Power(y, n - 1));
    }
  }

  lemma {:induction false} PowerPositive(x: nat, n: nat)
    requires x > 0
    ensures Power(x, n) > 0
  {
    if n > 0 {
      PowerPositive(x, n - 1);
      Digits.MulMono(1, Power(x, n - 1), x);
    }
  }

  lemma PowerGrows(x: nat, m: nat, n: nat)
    requires x > 0 && m <= n
    ensures Power(x, m) <= Power(x, n)
  {
    hide Power;
    PowerAdd(x, m, n - m);
    PowerPositive(x, n - m);
    ProductOrder(1, Power(x, n - m), Power(x, m), Power(x, m));
  }

  lemma PowerDouble(x: nat, m: nat, v: nat)
    requires Power(x, m) == v
    ensures Power(x, 2 * m) == v * v
  {
    PowerAdd(x, m, m);
  }

  lemma PowerNext(x: nat, m: nat, v: nat)
    requires Power(x, m) == v
    ensures Power(x, m + 1) == v * x
  {}

  lemma PowerOne(x: nat)
    ensures Power(x, 1) == x
  {
    assert Power(x, 0) == 1;
  }

  lemma TwoTo97()
    ensures Power(2, 97) == 158456325028528675187087900672
  {
    hide Power;
    PowerOne(2);
    PowerNext(2, 1, 2);
    PowerNext(2, 2, 4);
    PowerDouble(2, 3, 8);
    PowerDouble(2, 6, 64);
    PowerDouble(2, 12, 4096);
    PowerDouble(2, 24, 16777216);
    PowerDouble(2, 48, 281474976710656);
    PowerNext(2, 96, 79228162514264337593543950336);
  }

  lemma TenTo73()
    ensures Power(10, 73) == 10000000000000000000000000000000000000000000000000000000000000000000000000
  {
    hide Power;
    PowerOne(10);
    PowerDouble(10, 1, 10);
    PowerDouble(10, 2, 100);
    PowerDouble(10, 4, 10000);
    PowerNext(10, 8, 100000000);
    PowerDouble(10, 9, 1000000000);
    PowerDouble(10, 18, 1000000000000000000);
    PowerDouble(10, 36, 1000000000000000000000000000000000000);
    PowerNext(10, 72, 1000000000000000000000000000000000000000000000000000000000000000000000000);
  }

  /** log10 (2) < 146/485, as a statement on integers. */
  lemma LogBound()
    ensures Power(2, 485) < Power(10, 146)
  {
    hide Power;
    var x := 158456325028528675187087900672;
    var y := 10000000000000000000000000000000000000000000000000000000000000000000000000;
    TwoTo97();
    TenTo73();
    PowerTimes(2, 97, 5);
    PowerFive(x);
    PowerDouble(10, 73, y);
  }

  lemma PowerFive(x: nat)
    ensures Power(x, 5) == x * x * x * x * x
  {
    assert Power(x, 1) == Power(x, 0) * x;
    assert Power(x, 3) == Power(x, 2) * x;
  }

  /** Every number below 2^b has at most BitsStrlenBound(b) digits, and so has 2^b itself. */
  lemma BitsBound(b: nat)
    requires b >= 1
    ensures Power(2, b) < Power(10, BitsStrlenBound(b))
  {
    hide Power;
    var k := BitsStrlenBound(b);
    assert 146 * b <= 485 * k;
    if Power(10, k) <= Power(2, b) {
      PowerOrder(Power(10, k), Power(2, b), 485);
      PowerTimes(10, k, 485);
      PowerTimes(2, b, 485);
      assert b * 485 == 485 * b && k * 485 == 485 * k;
      PowerTimes(2, 485, b);
      PowerTimes(10, 146, b);
      LogBound();
      PowerOrder(Power(2, 485), Power(10, 146), b);
      PowerGrows(10, 146 * b, 485 * k);
      assert false;
    }
  }

  // The bound is the exact length of the longest numeral up to 2620 bits: approximations of
  // powers of two by multiples of powers of ten, from below and from above.

  ghost predicate AtLeast(m: nat, a: nat, e: nat) {
    Power(2, m) >= a * Power(10, e)
  }

  ghost predicate NoMoreThan(m: nat, a: nat, e: nat) {
    Power(2, m) <= a * Power(10, e)
  }

  /** The square of an approximation, with j digits cut off; t is 10^j. */
  lemma AtLeastDouble(m: nat, a: nat, e: nat, b: nat, j: nat, t: nat)
    requires AtLeast(m, a, e) && t == Power(10, j) && a * a >= b * t
    ensures AtLeast(2 * m, b, 2 * e + j)
  {
    hide Power;
    var x, y := Power(2, m), Power(10, e);
    PowerAdd(2, m, m);
    PowerAdd(10, e, e);
    PowerAdd(10, e + e, j);
    ProductOrder(a * y, x, a * y, x);
    ProductOrder(b * t, a * a, y * y, y * y);
    SquareOfProduct(a, y);
    Rearranged(b, t, y * y);
  }

  lemma NoMoreThanDouble(m: nat, a: nat, e: nat, b: nat, j: nat, t: nat)
    requires NoMoreThan(m, a, e) && t == Power(10, j) && a * a <= b * t
    ensures NoMoreThan(2 * m, b, 2 * e + j)
  {
    hide Power;
    var x, y := Power(2, m), Power(10, e);
    PowerAdd(2, m, m);
    PowerAdd(10, e, e);
    PowerAdd(10, e + e, j);
    ProductOrder(x, a * y, x, a * y);
    ProductOrder(a * a, b * t, y * y, y * y);
    SquareOfProduct(a, y);
    Rearranged(b, t, y * y);
  }

  lemma SquareOfProduct(a: int, y: int)
    ensures (a * y) * (a * y) == (a * a) * (y * y)
  {}

  lemma Rearranged(b: int, t: int, z: int)
    ensures (b * t) * z == b * (z * t)
  {}

  lemma AtLeastNext(m: nat, a: nat, e: nat)
    requires AtLeast(m, a, e)
    ensures AtLeast(m + 1, 2 * a, e)
  {
    Associate(2, a, Power(10, e));
  }

  lemma NoMoreThanNext(m: nat, a: nat, e: nat)
    requires NoMoreThan(m, a, e)
    ensures NoMoreThan(m + 1, 2 * a, e)
  {
    Associate(2, a, Power(10, e));
  }

  /** The powers of ten in the approximations. */
  lemma PowersOfTen()
    ensures Power(10, 8) == 100000000
    ensures Power(10, 11) == 100000000000
    ensures Power(10, 12) == 1000000000000
    ensures Power(10, 13) == 10000000000000
  {
    hide Power;
    PowerOne(10);
    PowerNext(10, 1, 10);
    PowerNext(10, 2, 100);
    PowerNext(10, 3, 1000);
    PowerNext(10, 4, 10000);
    PowerNext(10, 5, 100000);
    PowerNext(10, 6, 1000000);
    PowerNext(10, 7, 10000000);
    PowerNext(10, 8, 100000000);
    PowerNext(10, 9, 1000000000);
    PowerNext(10, 10, 10000000000);
    PowerNext(10, 11, 100000000000);
    PowerNext(10, 12, 1000000000000);
  }

  lemma PowerZero(x: nat)
    ensures Power(x, 0) == 1
  {}

  lemma SmallPowers()
    ensures AtLeast(33, 8589934592, 0) && NoMoreThan(40, 1099511627776, 0)
  {
    hide Power;
    PowerZero(10);
    PowerOne(2);
    PowerDouble(2, 1, 2);
    PowerDouble(2, 2, 4);
    PowerDouble(2, 4, 16);
    PowerDouble(2, 8, 256);
    PowerDouble(2, 16, 65536);
    PowerNext(2, 32, 4294967296);
    PowerDouble(2, 1, 2);
    PowerDouble(2, 2, 4);
    PowerNext(2, 4, 16);
    PowerDouble(2, 5, 32);
    PowerDouble(2, 10, 1024);
    PowerDouble(2, 20, 1048576);
  }

  lemma Below2136()
    ensures Power(10, 643) < Power(2, 2136)
  {
    hide Power, AtLeast, NoMoreThan;
    PowersOfTen();
    SmallPowers();
    AtLeastDouble(33, 8589934592, 0, 737869762948, 8, 100000000);
    AtLeastDouble(66, 737869762948, 8, 544451787072, 12, 1000000000000);
    AtLeastNext(132, 544451787072, 28);
    AtLeastDouble(133, 1088903574144, 28, 118571099378, 13, 10000000000000);
    AtLeastNext(266, 118571099378, 69);
    AtLeastDouble(267, 237142198756, 69, 562364224308, 11, 100000000000);
    AtLeastDouble(534, 562364224308, 149, 316253520781, 12, 1000000000000);
    AtLeastDouble(1068, 316253520781, 310, 100016289406, 12, 1000000000000);
    PowerAdd(10, 632, 11);
    TenBelow(2136, 100016289406, 632, 100000000000);
  }

  lemma TenBelow(m: nat, a: nat, e: nat, t: nat)
    requires AtLeast(m, a, e) && t < a
    ensures Power(10, e) * t < Power(2, m)
  {
    PowerPositive(10, e);
    ProductOrder(t, a, Power(10, e), Power(10, e));
  }

  lemma Above2621()
    ensures Power(2, 2621) < Power(10, 789)
  {
    hide Power, AtLeast, NoMoreThan;
    PowersOfTen();
    SmallPowers();
    NoMoreThanDouble(40, 1099511627776, 0, 120892581962, 13, 10000000000000);
    NoMoreThanNext(80, 120892581962, 13);
    NoMoreThanDouble(81, 241785163924, 13, 584600654938, 11, 100000000000);
    NoMoreThanNext(162, 584600654938, 37);
    NoMoreThanDouble(163, 1169201309876, 37, 136703170302, 13, 10000000000000);
    NoMoreThanNext(326, 136703170302, 87);
    NoMoreThanDouble(327, 273406340604, 87, 747510270825, 11, 100000000000);
    NoMoreThanNext(654, 747510270825, 185);
    NoMoreThanDouble(655, 1495020541650, 185, 223508641996, 13, 10000000000000);
    NoMoreThanDouble(1310, 223508641996, 383, 499561130469, 11, 100000000000);
    NoMoreThanNext(2620, 499561130469, 777);
    PowerAdd(10, 777, 12);
    TenAbove(2621, 999122260938, 777, 1000000000000);
  }

  lemma TenAbove(m: nat, a: nat, e: nat, t: nat)
    requires NoMoreThan(m, a, e) && a < t
    ensures Power(2, m) < Power(10, e) * t
  {
    PowerPositive(10, e);
    ProductOrder(a, t, Power(10, e), Power(10, e));
  }

  /**
    Below 2621 bits the bound is tight: 2^b exceeds the power of ten that a bound one smaller
    would need.  No fraction with so small a denominator is between 643/2136 and 146/485.
   */
  lemma BitsTight(b: nat)
    requires 1 <= b < 2621
    ensures Power(10, BitsStrlenBound(b) - 1) < Power(2, b)
  {
    hide Power;
    var k := BitsStrlenBound(b) - 1;
    var u, v := 146 * b - 485 * k, 643 * b - 2136 * k;
    assert u >= 1 && b == 2136 * u - 485 * v;
    assert v >= 0;
    if Power(2, b) <= Power(10, k) {
      PowerOrder(Power(2, b), Power(10, k), 2136);
      PowerTimes(2, b, 2136);
      PowerTimes(10, k, 2136);
      assert b * 2136 == 2136 * b && k * 2136 == 2136 * k;
      PowerTimes(2, 2136, b);
      PowerTimes(10, 643, b);
      Below2136();
      PowerOrder(Power(10, 643), Power(2, 2136), b);
      PowerGrows(10, 2136 * k, 643 * b);
      assert false;
    }
  }

  /** A decimal number with its sign, as printf ("%d") and printf ("%u") write it. */
  function Printed(n: int): string {
    if n < 0 then "-" + Digits.Numeral(-n, 10) else Digits.Numeral(n, 10)
  }

  /** Every value of a type of w bits prints within its bound, the least one included. */
  lemma PrintedWithinBound(w: nat, signed: bool, n: int)
    requires if signed then 2 <= w && 0 - Pow2(w - 1) <= n < Pow2(w - 1) else 1 <= w && 0 <= n < Pow2(w)
    ensures |Printed(n)| <= StrlenBound(w, signed)
  {
    hide Power;
    var b := if signed then w - 1 else w;
    BitsBound(b);
    assert BitsStrlenBound(b) >= 1;
    Digits.NumeralLength(if n < 0 then -n else n, 10, BitsStrlenBound(b));
  }

  /** Where the macro cannot tell and takes an unsigned type for a signed one, the bound is at most one too large. */
  lemma AssumedSigned(w: nat)
    requires 1 <= w
    ensures StrlenBound(w, false) <= StrlenBound(w, true) <= StrlenBound(w, false) + 1
  {}

  /**
    The longest numeral of a b-bit number has exactly as many digits as the bound says for
    every b below 2621, and fewer at 2621.
   */
  lemma StrlenBoundIsTight(b: nat)
    requires 1 <= b <= 2621
    ensures |Digits.Numeral(Pow2(b) - 1, 10)| == BitsStrlenBound(b) <==> b < 2621
    ensures |Digits.Numeral(Pow2(b) - 1, 10)| <= BitsStrlenBound(b)
  {
    hide Power;
    BitsBound(b);
    var k := BitsStrlenBound(b);
    Digits.NumeralLength(Pow2(b) - 1, 10, k);
    if b < 2621 { BitsTight(b); } else { Above2621(); }
    if k > 1 { Digits.NumeralLength(Pow2(b) - 1, 10, k - 1); }
  }

  /** The least value of a signed type, with its sign, and the greatest of an unsigned one need the whole bound. */
  lemma BoundIsNeeded(w: nat)
    requires 2 <= w < 2621
    ensures |Printed(0 - Pow2(w - 1))| == StrlenBound(w, true)
    ensures |Printed(Pow2(w) - 1)| == StrlenBound(w, false)
  {
    hide Power;
    var b := w - 1;
    var k := BitsStrlenBound(b);
    BitsBound(b);
    BitsTight(b);
    Digits.NumeralLength(Pow2(b), 10, k);
    if k > 1 { Digits.NumeralLength(Pow2(b), 10, k - 1); }
    StrlenBoundIsTight(w);
  }

  /** The extrema of a C type are those of an integer type with as many values. */
  lemma ExtremaOfType(t: CType)
    ensures LeastStored(2 * Half(t), t.signed) == Lo(t) && MostStored(2 * Half(t), t.signed) == Hi(t)
  {
    hide Half;
  }

  /** The report of an overflow that is none, for an int and an unsigned int that are stored in a signed char. */
  lemma AddMisjudges()
    ensures var a, b := Of(INT, -300), Of(IntType(false, INT_WIDTH), 200);
            && IsValue(a) && IsValue(b) && a.v.value + b.v.value == -100
            && AddRangeOverflow(a, b, Lit(-128), Lit(127)) == Truth(true)
  {
    hide Half, AddRangeOverflow;
    HalfOrder(INT, IntType(false, INT_WIDTH));
    IntHolds();
    AddRange(Of(INT, -300), Of(IntType(false, INT_WIDTH), 200), Lit(-128), Lit(127));
  }

  lemma IntHolds()
    ensures Half(INT) >= 0x8000
  {
    Pow2Add(5, 10);
    assert Pow2(5) == 32 && Pow2(10) == 1024;
    if INT_WIDTH > 16 { Pow2Less(15, INT_WIDTH - 1); }
  }
}
