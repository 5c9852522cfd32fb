/** The numeric tower of interpreter/arithmetic.go: the promotion table over
    the (Integer | Float | BigInt)^2 operand tags, overflow-checked int64
    addition, subtraction and multiplication that widen to BigInt, demotion
    of BigInt results that fit int64, division with its zero check, negation
    and three-way comparison.

    Operands are the number values of module Values. Floats carry no payload:
    a float result is just the tag, and the float zero test and float
    comparison are reported as `FloatUnmodelled`. Go's int64 operators wrap
    around (`Wrap`) and its integer `/` truncates toward zero (`TruncDiv`);
    `big.Int.Div` is Euclidean, which is Dafny's `/` on `int`. */
module Arithmetic {
  import opened Types
  import opened Values

  // ---------------------------------------------------------------------
  // Promotion

  /** A `promotionrule`: whether the left operand (else the right one) is
      converted, and the tag both operands end up with. */
  datatype Rule = Rule(left: bool, output: TypeId)

  predicate IsNumberType(t: TypeId) {
    t == IntegerT || t == FloatT || t == BigIntT
  }

  /** `arithRules`, keyed by the (left, right) tags. */
  function ArithRule(l: TypeId, r: TypeId): Option<Rule> {
    match (l, r)
    case (IntegerT, IntegerT) => Some(Rule(false, IntegerT))
    case (IntegerT, FloatT) => Some(Rule(true, FloatT))
    case (IntegerT, BigIntT) => Some(Rule(true, BigIntT))
    case (FloatT, FloatT) => Some(Rule(false, FloatT))
    case (FloatT, IntegerT) => Some(Rule(false, FloatT))
    case (FloatT, BigIntT) => Some(Rule(false, FloatT))
    case (BigIntT, IntegerT) => Some(Rule(false, BigIntT))
    case (BigIntT, FloatT) => Some(Rule(true, FloatT))
    case (BigIntT, BigIntT) => Some(Rule(false, BigIntT))
    case _ => None
  }

  /** The tower's order Integer < BigInt < Float: the wider of two tags. */
  function Join(l: TypeId, r: TypeId): TypeId {
    if l == FloatT || r == FloatT then FloatT
    else if l == BigIntT || r == BigIntT then BigIntT
    else IntegerT
  }

  /** The table has a rule for exactly the nine number pairs; each rule's
      output is the wider tag, and the operand it does not designate already
      carries that tag, so promotion converts at most one side. */
  lemma RuleTable(l: TypeId, r: TypeId)
    ensures ArithRule(l, r).Some? <==> IsNumberType(l) && IsNumberType(r)
    ensures ArithRule(l, r).Some? ==> ArithRule(l, r).value.output == Join(l, r)
    ensures ArithRule(l, r).Some? && ArithRule(l, r).value.left ==> r == Join(l, r)
    ensures ArithRule(l, r).Some? && !ArithRule(l, r).value.left ==> l == Join(l, r)
  {
  }

  /** `Convert` of an Integer or BigInt operand. */
  function NumConvert(v: Value, id: TypeId): ConvResult
    requires v.Int? || v.BigInt?
  {
    if v.Int? then IntConvert(v.i, id) else BigConvert(v.n, id)
  }

  datatype Promoted =
    | Promoted(l: Value, r: Value)
    | PromotionFailed(left: TypeId, right: TypeId)   // `TypePromotionError`
    | ConversionFailed(err: ConvResult)

  /** `promoteTypes`: looks the tag pair up in the table and converts the
      designated operand when its tag differs from the rule's output. Both
      results carry the wider tag, an operand already of that tag is returned
      unchanged, and Integer/BigInt operands keep their numeric value. */
  function PromoteTypes(l: Value, r: Value): (p: Promoted)
    requires IsNumber(l) && IsNumber(r)
    ensures p.Promoted?
    ensures IsNumber(p.l) && IsNumber(p.r)
    ensures TypeOf(p.l) == Join(TypeOf(l), TypeOf(r)) && TypeOf(p.r) == TypeOf(p.l)
    ensures TypeOf(l) == TypeOf(p.l) ==> p.l == l
    ensures TypeOf(r) == TypeOf(p.r) ==> p.r == r
    ensures !p.l.Float? ==> (!l.Float? && !r.Float? &&
      NumValue(p.l) == NumValue(l) && NumValue(p.r) == NumValue(r))
  {
    var lt, rt := TypeOf(l), TypeOf(r);
    RuleTable(lt, rt);
    match ArithRule(lt, rt)
    case None => PromotionFailed(lt, rt)
    case Some(rule) =>
      if rule.left then
        if rule.output != lt then
          var c := NumConvert(l, rule.output);
          if c.Converted? then Promoted(c.value, r) else ConversionFailed(c)
        else Promoted(l, r)
      else if rule.output != rt then
        var c := NumConvert(r, rule.output);
        if c.Converted? then Promoted(l, c.value) else ConversionFailed(c)
      else Promoted(l, r)
  }

  // ---------------------------------------------------------------------
  // Outcomes

  /** What an arithmetic operation hands back: a number, one of the errors
      the source returns, a Go run-time panic, or a float case the model does
      not decide. */
  datatype Outcome =
    | Ok(v: Value)
    | PromotionError(left: TypeId, right: TypeId)
    | ConversionError(err: ConvResult)
    | ValueError(val: Value, msg: string)
    | Panic
    | FloatUnmodelled

  const DivByZeroMsg := "Division by zero"

  /** A BigInt result as the BigInt branches return it: an Integer when the
      value fits int64 (`IsInt64`), a BigInt otherwise. */
  function Demote(n: int): (v: Value)
    ensures v.Int? || v.BigInt?
    ensures NumValue(v) == n
    ensures v.Int? <==> InInt64(n)
  {
    if InInt64(n) then Int(n) else BigInt(n)
  }

  // ---------------------------------------------------------------------
  // Integer helpers

  function Abs(x: int): nat {
    if x < 0 then -x else x
  }

  /** `sign`: -1 for a negative number and 1 otherwise, zero included. */
  function Sign(n: Int64): (s: Int64)
    ensures s == 1 <==> n >= 0
    ensures s == -1 <==> n < 0
  {
    if n < 0 then -1 else 1
  }

  /** Go's integer `/`: the quotient truncated toward zero. */
  function TruncDiv(x: int, y: int): int
    requires y != 0
  {
    var q := Abs(x) / Abs(y);
    if (x < 0) == (y < 0) then q else -q
  }

  /** The remainder that goes with `TruncDiv`: it takes the dividend's sign. */
  function TruncRem(x: int, y: int): int
    requires y != 0
  {
    var m := Abs(x) % Abs(y);
    if x < 0 then -m else m
  }

  lemma NegMul(q: int, y: int)
    ensures (-q) * y == -(q * y) && q * (-y) == -(q * y)
  {
  }

  /** Quotient times divisor plus remainder is the dividend. */
  lemma TruncRebuild(x: int, y: int)
    requires y != 0
    ensures x == TruncDiv(x, y) * y + TruncRem(x, y)
  {
    var n := Abs(y);
    var q, m := Abs(x) / n, Abs(x) % n;
    var t, r := TruncDiv(x, y), TruncRem(x, y);
    assert Abs(x) == q * n + m;
    NegMul(q, y);
    if x >= 0 && y > 0 {
      assert t == q && r == m && n == y;
    } else if x >= 0 {
      assert t == -q && r == m && n == -y;
    } else if y > 0 {
      assert t == -q && r == -m && n == y && x == -(q * n + m);
    } else {
      assert t == q && r == -m && n == -y && x == -(q * n + m);
    }
  }

  lemma TruncRemSmall(x: int, y: int)
    requires y != 0
    ensures Abs(TruncRem(x, y)) < Abs(y)
  {
  }

  lemma TruncRemSign(x: int, y: int)
    requires y != 0
    ensures TruncRem(x, y) == 0 || (TruncRem(x, y) < 0 <==> x < 0)
  {
  }

  lemma TruncDivMagnitude(x: int, y: int)
    requires y != 0
    ensures Abs(TruncDiv(x, y)) == Abs(x) / Abs(y)
  {
  }

  /** Go's quotient and remainder rebuild the dividend; the remainder is
      smaller than the divisor and has the dividend's sign (truncation toward
      zero), and the quotient's magnitude is the quotient of the magnitudes. */
  lemma TruncDivSpec(x: int, y: int)
    requires y != 0
    ensures x == TruncDiv(x, y) * y + TruncRem(x, y)
    ensures Abs(TruncRem(x, y)) < Abs(y)
    ensures TruncRem(x, y) == 0 || (TruncRem(x, y) < 0 <==> x < 0)
    ensures Abs(TruncDiv(x, y)) == Abs(x) / Abs(y)
  {
    TruncRebuild(x, y);
    TruncRemSmall(x, y);
    TruncRemSign(x, y);
    TruncDivMagnitude(x, y);
  }

  lemma MulNonNeg(a: nat, b: nat)
    ensures a * b >= 0
  {
  }

  /** Dividing by at least one does not grow a natural number, and dividing
      by at least two halves it. */
  lemma DivShrinks(n: nat, d: nat)
    requires d >= 1
    ensures n / d <= n
    ensures d >= 2 ==> 2 * (n / d) <= n
  {
    var q := n / d;
    assert n == q * d + n % d;
    assert q * d == q * (d - 1) + q;
    MulNonNeg(q, d - 1);
    if d >= 2 {
      assert q * d == q * (d - 2) + 2 * q;
      MulNonNeg(q, d - 2);
    }
  }

  /** Go's int64 `/` stays in range except for MinInt64 / -1. */
  lemma TruncDivInRange(a: Int64, b: Int64)
    requires b != 0 && !(a == MinInt64 && b == -1)
    ensures InInt64(TruncDiv(a, b))
  {
    var t := TruncDiv(a, b);
    TruncDivMagnitude(a, b);
    DivShrinks(Abs(a), Abs(b));
    if b == 1 {
      assert t == a;
    } else if b == -1 {
      assert Abs(a) / Abs(b) == Abs(a);
    } else {
      assert Abs(b) >= 2;
      assert 2 * Abs(t) <= Abs(a);
    }
  }

  lemma MulAbs(k: int, y: int)
    ensures Abs(k * y) == Abs(k) * Abs(y)
  {
    if k < 0 && y < 0 {
      assert k * y == (-k) * (-y);
    } else if k < 0 {
      assert k * y == -((-k) * y);
    } else if y < 0 {
      assert k * y == -(k * (-y));
    }
  }

  lemma MulGrows(k: nat, y: nat)
    requires k >= 1
    ensures k * y >= y
  {
    assert k * y == (k - 1) * y + y;
  }

  /** A non-zero multiple of `y` is at least `y` in magnitude. */
  lemma NonZeroMultiple(k: int, y: int)
    requires k != 0
    ensures Abs(k * y) >= Abs(y)
  {
    MulAbs(k, y);
    MulGrows(Abs(k), Abs(y));
  }

  /** Dividing an exact product by one factor gives back the other. */
  lemma TruncDivExact(a: int, b: int)
    requires b != 0
    ensures TruncDiv(a * b, b) == a
  {
    var t := TruncDiv(a * b, b);
    TruncDivSpec(a * b, b);
    assert TruncRem(a * b, b) == (a - t) * b;
    if a - t != 0 {
      NonZeroMultiple(a - t, b);
    }
  }

  /** Wrapping the sum and taking the other operand away again gives back
      the first operand: under wrap-around, `c - b == a` always holds. */
  lemma WrapCancel(a: Int64, x: int)
    ensures Wrap(Wrap(a + x) - x) == a
  {
    var c := Wrap(a + x);
    var k := (c - (a + x)) / Modulus;
    assert c - (a + x) == k * Modulus;
    assert c - x == a + k * Modulus;
    WrapShift(a, k);
  }

  /** An int64 value congruent to `x` but different from it is at least
      2^64 away from it. */
  lemma WrapFar(x: int)
    requires !InInt64(x)
    ensures Abs(Wrap(x) - x) >= Modulus
  {
    var d := Wrap(x) - x;
    assert d == (d / Modulus) * Modulus;
    assert d != 0;
    NonZeroMultiple(d / Modulus, Modulus);
  }

  // ---------------------------------------------------------------------
  // Overflow checks

  /** `addOverflows`, with Go's wrapping `+` and `-`. */
  function AddOverflows(a: Int64, b: Int64): (Int64, bool) {
    if (a == MaxInt64 && Sign(b) == 1) || (b == MaxInt64 && Sign(a) == 1) then (0, true)
    else if (a == MinInt64 && Sign(b) == -1) || (Sign(a) == -1 && b == MinInt64) then (0, true)
    else
      var c := Wrap(a + b);
      if Wrap(c - b) != a then (0, true) else (c, false)
  }

  /** Because `c - b` always gives back `a` under wrap-around, `addOverflows`
      flags exactly the four extreme-operand cases, and an unflagged result
      is the wrapped sum. */
  lemma AddOverflowsFlags(a: Int64, b: Int64)
    ensures AddOverflows(a, b).1 <==>
      (a == MaxInt64 && b >= 0) || (b == MaxInt64 && a >= 0) ||
      (a == MinInt64 && b < 0) || (a < 0 && b == MinInt64)
    ensures !AddOverflows(a, b).1 ==> AddOverflows(a, b).0 == Wrap(a + b)
  {
    WrapCancel(a, b);
  }

  /** 2^62 + 2^62 overflows int64, yet `addOverflows` reports no overflow and
      returns the wrapped sum MinInt64. */
  lemma AddOverflowsMissesWrap()
    ensures !InInt64(0x4000_0000_0000_0000 + 0x4000_0000_0000_0000)
    ensures AddOverflows(0x4000_0000_0000_0000, 0x4000_0000_0000_0000) == (MinInt64, false)
  {
  }

  /** Overflow detection for `+` as intended: flag exactly the sums outside
      int64, using only int64-safe comparisons. */
  function AddOverflowsIntended(a: Int64, b: Int64): (r: (Int64, bool))
    ensures r.1 <==> !InInt64(a + b)
    ensures !r.1 ==> r.0 == a + b
  {
    if (b > 0 && a > MaxInt64 - b) || (b < 0 && a < MinInt64 - b) then (0, true)
    else
      var s: Int64 := (a as int) + (b as int);
      (s, false)
  }

  /** `subOverflows`, with Go's wrapping `-` and `+`. */
  function SubOverflows(a: Int64, b: Int64): (Int64, bool) {
    if (a == MaxInt64 && Sign(b) == -1) || (Sign(a) == -1 && b == MaxInt64) then (0, true)
    else if (a == MinInt64 && Sign(b) == 1) || (Sign(a) == 1 && b == MaxInt64) then (0, true)
    else
      var c := Wrap(a - b);
      if Wrap(c + b) != a then (0, true) else (c, false)
  }

  /** The residual check of `subOverflows` is vacuous as well, so exactly the
      extreme-operand tests fire; they flag every subtraction of MaxInt64,
      whatever the left operand. An unflagged result is the wrapped
      difference. */
  lemma SubOverflowsFlags(a: Int64, b: Int64)
    ensures SubOverflows(a, b).1 <==>
      b == MaxInt64 || (a == MaxInt64 && b < 0) || (a == MinInt64 && b >= 0)
    ensures !SubOverflows(a, b).1 ==> SubOverflows(a, b).0 == Wrap(a - b)
  {
    WrapCancel(a, -(b as int));
  }

  /** `mulOverflows`, with Go's wrapping `*` and truncating `/`. */
  function MulOverflows(a: Int64, b: Int64): (r: (Int64, bool)) {
    if a == 0 || b == 0 || a == 1 || b == 1 then (Wrap(a * b), false)
    else if a == MinInt64 || b == MinInt64 then (0, true)
    else
      var c := Wrap(a * b);
      if Wrap(TruncDiv(c, b)) != a then (0, true) else (c, false)
  }

  /** `mulOverflows` is exact: it flags a product precisely when the product
      leaves the int64 range, and an unflagged result is the exact product. */
  lemma MulOverflowsExact(a: Int64, b: Int64)
    ensures MulOverflows(a, b).1 <==> !InInt64(a * b)
    ensures !MulOverflows(a, b).1 ==> MulOverflows(a, b).0 == a * b
  {
    if a == 0 || b == 0 || a == 1 || b == 1 {
    } else if a == MinInt64 || b == MinInt64 {
      var other: int := if a == MinInt64 then b else a;
      assert a * b == MinInt64 * other;
      if other == -1 {
        assert MinInt64 * other == -MinInt64;
      } else {
        MulAbs(other, MinInt64);
        assert Abs(other) >= 2;
        assert Abs(other) * Abs(MinInt64) == (Abs(other) - 1) * Abs(MinInt64) + Abs(MinInt64);
        MulGrows(Abs(other) - 1, Abs(MinInt64));
      }
    } else if InInt64(a * b) {
      TruncDivExact(a, b);
    } else {
      var c := Wrap(a * b);
      var t := TruncDiv(c, b);
      TruncDivSpec(c, b);
      TruncDivInRange(c, b);
      WrapFar(a * b);
      assert c - t * b != c - a * b;
    }
  }

  // ---------------------------------------------------------------------
  // The four operations

  /** `evalAddition` as written. */
  function EvalAddition(l: Value, r: Value): Outcome
    requires IsNumber(l) && IsNumber(r)
  {
    match PromoteTypes(l, r)
    case PromotionFailed(x, y) => PromotionError(x, y)
    case ConversionFailed(e) => ConversionError(e)
    case Promoted(lop, rop) =>
      match (lop, rop)
      case (Int(a), Int(b)) =>
        var (c, overflow) := AddOverflows(a, b);
        if overflow then Ok(BigInt(a + b)) else Ok(Int(c))
      case (Float, Float) => Ok(Float)
      case (BigInt(a), BigInt(b)) => Ok(Demote(a + b))
      case _ => Panic
  }

  /** Without a float operand, addition succeeds with a number; it is the
      exact sum whenever the sum fits int64 or a BigInt is involved, and a
      BigInt result that fits is demoted to an Integer. Two Integers give the
      exact sum as a BigInt when flagged and the wrapped sum otherwise. */
  lemma EvalAdditionResult(l: Value, r: Value)
    requires IsNumber(l) && IsNumber(r) && !l.Float? && !r.Float?
    ensures EvalAddition(l, r).Ok? && IsNumber(EvalAddition(l, r).v) && !EvalAddition(l, r).v.Float?
    ensures InInt64(NumValue(l) + NumValue(r)) ==>
      NumValue(EvalAddition(l, r).v) == NumValue(l) + NumValue(r)
    ensures l.BigInt? || r.BigInt? ==> EvalAddition(l, r) == Ok(Demote(NumValue(l) + NumValue(r)))
    ensures l.Int? && r.Int? ==> (EvalAddition(l, r) ==
      if AddOverflows(l.i, r.i).1 then Ok(BigInt(l.i + r.i)) else Ok(Int(Wrap(l.i + r.i))))
  {
    if l.Int? && r.Int? {
      AddOverflowsFlags(l.i, r.i);
    }
  }

  /** Two sums that `evalAddition` gets wrong: 2^62 + 2^62 wraps to MinInt64,
      and MaxInt64 + 0 comes back as a BigInt although it fits int64. */
  lemma EvalAdditionMisfits()
    ensures EvalAddition(Int(0x4000_0000_0000_0000), Int(0x4000_0000_0000_0000)) == Ok(Int(MinInt64))
    ensures EvalAddition(Int(MaxInt64), Int(0)) == Ok(BigInt(MaxInt64))
  {
  }

  /** `evalAddition` with the intended overflow check. */
  function EvalAdditionIntended(l: Value, r: Value): Outcome
    requires IsNumber(l) && IsNumber(r)
  {
    match PromoteTypes(l, r)
    case PromotionFailed(x, y) => PromotionError(x, y)
    case ConversionFailed(e) => ConversionError(e)
    case Promoted(lop, rop) =>
      match (lop, rop)
      case (Int(a), Int(b)) =>
        var (c, overflow) := AddOverflowsIntended(a, b);
        if overflow then Ok(BigInt(a + b)) else Ok(Int(c))
      case (Float, Float) => Ok(Float)
      case (BigInt(a), BigInt(b)) => Ok(Demote(a + b))
      case _ => Panic
  }

  /** With the intended check every integer sum is exact, an Integer when it
      fits int64 and a BigInt when it does not. */
  lemma EvalAdditionIntendedExact(l: Value, r: Value)
    requires IsNumber(l) && IsNumber(r) && !l.Float? && !r.Float?
    ensures EvalAdditionIntended(l, r) == Ok(Demote(NumValue(l) + NumValue(r)))
  {
  }

  /** `evalSubtraction` as written. Its overflow branch calls `Add` through a
      nil `*BigInt` and so panics at run time. */
  function EvalSubtraction(l: Value, r: Value): Outcome
    requires IsNumber(l) && IsNumber(r)
  {
    match PromoteTypes(l, r)
    case PromotionFailed(x, y) => PromotionError(x, y)
    case ConversionFailed(e) => ConversionError(e)
    case Promoted(lop, rop) =>
      match (lop, rop)
      case (Int(a), Int(b)) =>
        var (c, overflow) := SubOverflows(a, b);
        if overflow then Panic else Ok(Int(c))
      case (Float, Float) => Ok(Float)
      case (BigInt(a), BigInt(b)) => Ok(Demote(a - b))
      case _ => Panic
  }

  /** Integer minus Integer panics exactly when `subOverflows` flags and is
      the wrapped difference otherwise; a BigInt operand gives the exact,
      demoted difference. */
  lemma EvalSubtractionResult(l: Value, r: Value)
    requires IsNumber(l) && IsNumber(r) && !l.Float? && !r.Float?
    ensures l.Int? && r.Int? ==>
      (EvalSubtraction(l, r) == Panic <==>
        r.i == MaxInt64 || (l.i == MaxInt64 && r.i < 0) || (l.i == MinInt64 && r.i >= 0))
    ensures l.Int? && r.Int? && EvalSubtraction(l, r) != Panic ==>
      EvalSubtraction(l, r) == Ok(Int(Wrap(l.i - r.i)))
    ensures l.BigInt? || r.BigInt? ==> EvalSubtraction(l, r) == Ok(Demote(NumValue(l) - NumValue(r)))
  {
    if l.Int? && r.Int? {
      SubOverflowsFlags(l.i, r.i);
    }
  }

  /** 0 - MaxInt64 fits int64 but panics; 2^62 - (-2^62) overflows int64 but
      is returned wrapped to MinInt64. */
  lemma EvalSubtractionMisfits()
    ensures InInt64(0 - MaxInt64) && EvalSubtraction(Int(0), Int(MaxInt64)) == Panic
    ensures !InInt64(0x4000_0000_0000_0000 - -0x4000_0000_0000_0000)
    ensures EvalSubtraction(Int(0x4000_0000_0000_0000), Int(-0x4000_0000_0000_0000)) == Ok(Int(MinInt64))
  {
  }

  /** Overflow detection for `-` as intended. */
  function SubOverflowsIntended(a: Int64, b: Int64): (r: (Int64, bool))
    ensures r.1 <==> !InInt64(a - b)
    ensures !r.1 ==> r.0 == a - b
  {
    if (b < 0 && a > MaxInt64 + b) || (b > 0 && a < MinInt64 + b) then (0, true)
    else
      var d: Int64 := (a as int) - (b as int);
      (d, false)
  }

  /** `evalSubtraction` with the intended check and a BigInt that is
      actually allocated in the overflow branch. */
  function EvalSubtractionIntended(l: Value, r: Value): Outcome
    requires IsNumber(l) && IsNumber(r)
  {
    match PromoteTypes(l, r)
    case PromotionFailed(x, y) => PromotionError(x, y)
    case ConversionFailed(e) => ConversionError(e)
    case Promoted(lop, rop) =>
      match (lop, rop)
      case (Int(a), Int(b)) =>
        var (c, overflow) := SubOverflowsIntended(a, b);
        if overflow then Ok(BigInt(a - b)) else Ok(Int(c))
      case (Float, Float) => Ok(Float)
      case (BigInt(a), BigInt(b)) => Ok(Demote(a - b))
      case _ => Panic
  }

  /** The intended subtraction never panics and is exact. */
  lemma EvalSubtractionIntendedExact(l: Value, r: Value)
    requires IsNumber(l) && IsNumber(r) && !l.Float? && !r.Float?
    ensures EvalSubtractionIntended(l, r) == Ok(Demote(NumValue(l) - NumValue(r)))
  {
  }

  /** `evalMultiplication`. */
  function EvalMultiplication(l: Value, r: Value): Outcome
    requires IsNumber(l) && IsNumber(r)
  {
    match PromoteTypes(l, r)
    case PromotionFailed(x, y) => PromotionError(x, y)
    case ConversionFailed(e) => ConversionError(e)
    case Promoted(lop, rop) =>
      match (lop, rop)
      case (Int(a), Int(b)) =>
        var (c, overflow) := MulOverflows(a, b);
        if overflow then Ok(BigInt(a * b)) else Ok(Int(c))
      case (Float, Float) => Ok(Float)
      case (BigInt(a), BigInt(b)) => Ok(Demote(a * b))
      case _ => Panic
  }

  /** Every integer product is exact: an Integer when it fits int64 and a
      BigInt holding the exact value when it does not. */
  lemma EvalMultiplicationExact(l: Value, r: Value)
    requires IsNumber(l) && IsNumber(r) && !l.Float? && !r.Float?
    ensures EvalMultiplication(l, r) == Ok(Demote(NumValue(l) * NumValue(r)))
  {
    if l.Int? && r.Int? {
      MulOverflowsExact(l.i, r.i);
    }
  }

  /** (MaxInt64 >> 1) * 128 overflows into the BigInt 590295810358705651584. */
  lemma MultiplicationWidens()
    ensures EvalMultiplication(Int(MaxInt64 / 2), Int(128)) == Ok(BigInt(590295810358705651584))
  {
    EvalMultiplicationExact(Int(MaxInt64 / 2), Int(128));
  }

  /** `evalDivision` as written: after promotion a zero divisor is a
      `ValueError`; Integers divide with Go's truncating, wrapping `/`;
      BigInts with `big.Int.Div`, demoted when the quotient fits. */
  function EvalDivision(l: Value, r: Value): Outcome
    requires IsNumber(l) && IsNumber(r)
  {
    match PromoteTypes(l, r)
    case PromotionFailed(x, y) => PromotionError(x, y)
    case ConversionFailed(e) => ConversionError(e)
    case Promoted(lop, rop) =>
      if rop.Float? then FloatUnmodelled
      else if NumValue(rop) == 0 then ValueError(rop, DivByZeroMsg)
      else
        match (lop, rop)
        case (Int(a), Int(b)) => Ok(Int(Wrap(TruncDiv(a, b))))
        case (BigInt(a), BigInt(b)) => Ok(Demote(a / b))
        case _ => Panic
  }

  /** Without floats, division reports "Division by zero" exactly when the
      divisor is zero and otherwise yields a number; a BigInt operand gives
      the Euclidean quotient, demoted when it fits. */
  lemma EvalDivisionResult(l: Value, r: Value)
    requires IsNumber(l) && IsNumber(r) && !l.Float? && !r.Float?
    ensures EvalDivision(l, r).ValueError? <==> NumValue(r) == 0
    ensures EvalDivision(l, r).ValueError? ==> (EvalDivision(l, r).msg == DivByZeroMsg &&
      (EvalDivision(l, r).val.Int? || EvalDivision(l, r).val.BigInt?) && NumValue(EvalDivision(l, r).val) == 0)
    ensures NumValue(r) != 0 ==> EvalDivision(l, r).Ok?
    ensures (l.BigInt? || r.BigInt?) && NumValue(r) != 0 ==>
      EvalDivision(l, r) == Ok(Demote(NumValue(l) / NumValue(r)))
  {
  }

  /** Integer by Integer truncates toward zero: the quotient and remainder
      rebuild the dividend, the remainder is smaller than the divisor and
      has the dividend's sign. Only MinInt64 / -1 wraps. */
  lemma IntDivisionTruncates(a: Int64, b: Int64)
    requires b != 0 && !(a == MinInt64 && b == -1)
    ensures InInt64(TruncDiv(a, b))
    ensures EvalDivision(Int(a), Int(b)) == Ok(Int(TruncDiv(a, b)))
    ensures a == TruncDiv(a, b) * b + TruncRem(a, b)
    ensures Abs(TruncRem(a, b)) < Abs(b)
    ensures TruncRem(a, b) == 0 || (TruncRem(a, b) < 0 <==> a < 0)
  {
    TruncDivSpec(a, b);
    TruncDivInRange(a, b);
  }

  /** The examples of the interpreter's tests: 10/4 is 2, 192/64 is 3, and
      590295810358705651584/128 comes back as the Integer 4611686018427387903. */
  lemma DivisionExamples()
    ensures EvalDivision(Int(10), Int(4)) == Ok(Int(2))
    ensures EvalDivision(Int(192), Int(64)) == Ok(Int(3))
    ensures EvalDivision(BigInt(590295810358705651584), Int(128)) == Ok(Int(4611686018427387903))
    ensures EvalDivision(Int(7), Int(0)) == ValueError(Int(0), DivByZeroMsg)
  {
  }

  /** The two integer representations round differently: -7/2 is -3 on
      Integers and -4 when either operand is a BigInt. */
  lemma DivisionRoundingDependsOnType()
    ensures EvalDivision(Int(-7), Int(2)) == Ok(Int(-3))
    ensures EvalDivision(BigInt(-7), Int(2)) == Ok(Int(-4))
  {
  }

  /** MinInt64 / -1 overflows int64 and wraps back to MinInt64. */
  lemma DivisionWraps()
    ensures EvalDivision(Int(MinInt64), Int(-1)) == Ok(Int(MinInt64))
  {
  }

  /** `evalDivision` with the one overflowing Integer quotient widened to a
      BigInt. */
  function EvalDivisionIntended(l: Value, r: Value): Outcome
    requires IsNumber(l) && IsNumber(r)
  {
    match PromoteTypes(l, r)
    case PromotionFailed(x, y) => PromotionError(x, y)
    case ConversionFailed(e) => ConversionError(e)
    case Promoted(lop, rop) =>
      if rop.Float? then FloatUnmodelled
      else if NumValue(rop) == 0 then ValueError(rop, DivByZeroMsg)
      else
        match (lop, rop)
        case (Int(a), Int(b)) => Ok(Demote(TruncDiv(a, b)))
        case (BigInt(a), BigInt(b)) => Ok(Demote(a / b))
        case _ => Panic
  }

  /** The intended Integer quotient is the exact truncated quotient. */
  lemma EvalDivisionIntendedExact(a: Int64, b: Int64)
    requires b != 0
    ensures EvalDivisionIntended(Int(a), Int(b)) == Ok(Demote(TruncDiv(a, b)))
    ensures EvalDivisionIntended(Int(MinInt64), Int(-1)) == Ok(BigInt(-MinInt64))
  {
  }

  /** `evalNegate`: Go's wrapping unary minus on Integers, `big.Int.Neg` on
      BigInts (not demoted). */
  function EvalNegate(x: Value): (o: Outcome)
    requires IsNumber(x)
    ensures o.Ok? && IsNumber(o.v) && TypeOf(o.v) == TypeOf(x)
  {
    match x
    case Int(a) => Ok(Int(Wrap(-(a as int))))
    case Float => Ok(Float)
    case BigInt(n) => Ok(BigInt(-n))
  }

  /** Negating twice gives back the operand, and the Integer result is the
      exact negation except for MinInt64, which is its own negation. */
  lemma NegateInvolutive(x: Value)
    requires IsNumber(x)
    ensures EvalNegate(EvalNegate(x).v) == Ok(x)
    ensures x.Int? && x.i != MinInt64 ==> EvalNegate(x) == Ok(Int(-x.i))
    ensures EvalNegate(Int(MinInt64)) == Ok(Int(MinInt64))
  {
    if x.Int? {
      WrapCancel(0, x.i);
      assert Wrap(-(x.i as int)) == Wrap(0 + x.i as int - 2 * x.i);
    }
  }

  /** `evalNegate` with an Integer that cannot be negated widened. */
  function EvalNegateIntended(x: Value): (o: Outcome)
    requires IsNumber(x)
    ensures x.Int? ==> o == Ok(Demote(-NumValue(x)))
    ensures x.BigInt? ==> o == EvalNegate(x)
  {
    match x
    case Int(a) => Ok(Demote(-(a as int)))
    case Float => Ok(Float)
    case BigInt(n) => Ok(BigInt(-n))
  }

  /** `EvalNegateIntended` differs from `EvalNegate` only on MinInt64. */
  lemma NegateIntendedAgrees(x: Value)
    requires IsNumber(x) && !x.Float?
    ensures x.Int? && x.i != MinInt64 ==> EvalNegateIntended(x) == EvalNegate(x)
    ensures EvalNegateIntended(Int(MinInt64)) == Ok(BigInt(-MinInt64))
  {
  }

  // ---------------------------------------------------------------------
  // Comparison

  /** `cmpInt`. */
  function CmpInt(l: Int64, r: Int64): CmpResult {
    if l < r then LessThan
    else if l == r then Equal
    else GreaterThan
  }

  /** `big.Int.Cmp`: -1, 0 or +1. */
  function BigCmp(x: int, y: int): (c: int)
    ensures c == -1 || c == 0 || c == 1
  {
    if x < y then -1 else if x == y then 0 else 1
  }

  /** `cmpBigInt`: the switch over `Cmp`'s result; the default case, which
      panics, cannot be reached. */
  function CmpBigInt(l: int, r: int): CmpResult {
    var v := BigCmp(l, r);
    if v == -1 then LessThan
    else if v == 0 then Equal
    else GreaterThan
  }

  function Flip(c: CmpResult): CmpResult {
    match c
    case LessThan => GreaterThan
    case GreaterThan => LessThan
    case other => other
  }

  /** Both comparisons never answer `Undefined`, agree with each other on
      int64 values, and swapping the operands flips the answer. */
  lemma CmpAgree(a: Int64, b: Int64)
    ensures CmpInt(a, b) != Undefined
    ensures CmpInt(a, b) == CmpBigInt(a, b)
    ensures CmpInt(b, a) == Flip(CmpInt(a, b))
  {
  }

  datatype CmpOutcome = Compared(c: CmpResult) | CmpFailed(err: Outcome)

  /** `evalPolymorphCmp`: compares after promotion; float comparison is not
      modelled. */
  function EvalPolymorphCmp(l: Value, r: Value): CmpOutcome
    requires IsNumber(l) && IsNumber(r)
  {
    match PromoteTypes(l, r)
    case PromotionFailed(x, y) => CmpFailed(PromotionError(x, y))
    case ConversionFailed(e) => CmpFailed(ConversionError(e))
    case Promoted(lop, rop) =>
      match (lop, rop)
      case (Int(a), Int(b)) => Compared(CmpInt(a, b))
      case (Float, Float) => CmpFailed(FloatUnmodelled)
      case (BigInt(a), BigInt(b)) => Compared(CmpBigInt(a, b))
      case _ => CmpFailed(Panic)
  }

  /** Without floats, the comparison answers exactly one of LessThan, Equal
      and GreaterThan, and the answer agrees with the numeric order of the
      operands whatever their representations. */
  lemma PolymorphCmpOrder(l: Value, r: Value)
    requires IsNumber(l) && IsNumber(r) && !l.Float? && !r.Float?
    ensures EvalPolymorphCmp(l, r).Compared?
    ensures EvalPolymorphCmp(l, r).c == LessThan <==> NumValue(l) < NumValue(r)
    ensures EvalPolymorphCmp(l, r).c == Equal <==> NumValue(l) == NumValue(r)
    ensures EvalPolymorphCmp(l, r).c == GreaterThan <==> NumValue(l) > NumValue(r)
  {
  }

  /** The interpreter's test examples: 25 < 100b and 22 > 7b. */
  lemma CmpExamples()
    ensures EvalPolymorphCmp(Int(25), BigInt(100)) == Compared(LessThan)
    ensures EvalPolymorphCmp(Int(22), BigInt(7)) == Compared(GreaterThan)
  {
  }
}
