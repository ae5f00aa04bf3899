/** Exact decimal arithmetic in the manner of java.math.BigDecimal: a number is an
    unscaled integer together with a scale, standing for unscaled / 10^scale.
    Every value the calculator builds has a scale of zero or more (its display text
    never holds an exponent), so the scale is a nat here. */
module Decimals {

  datatype Dec = Dec(unscaled: int, scale: nat)

  const Zero: Dec := Dec(0, 0)
  const One: Dec := Dec(1, 0)
  const Hundred: Dec := Dec(100, 0)

  function Pow10(k: nat): (p: int)
    ensures p >= 1
  {
    if k == 0 then 1 else 10 * Pow10(k - 1)
  }

  lemma {:induction false} Pow10Add(j: nat, k: nat)
    ensures Pow10(j + k) == Pow10(j) * Pow10(k)
  {
    if k > 0 {
      Pow10Add(j, k - 1);
      assert Pow10(j + k) == 10 * Pow10(j + k - 1);
    }
  }

  function Abs(x: int): (r: nat)
    ensures r == x || r == -x
  {
    if x < 0 then -x else x
  }

  function AbsR(x: real): (r: real)
    ensures r >= 0.0 && (r == x || r == -x)
  {
    if x < 0.0 then -x else x
  }

  function Max(a: nat, b: nat): nat
  {
    if a < b then b else a
  }

  /** The number a decimal stands for. */
  ghost function Value(d: Dec): real
  {
    d.unscaled as real / Pow10(d.scale) as real
  }

  // ---------------------------------------------------------------------------
  // Field facts about reals, each stated on its own so that the solver sees only
  // one non-linear step at a time.

  lemma RealCancel(x: real, p: real, q: real)
    requires p != 0.0 && q != 0.0
    ensures (x * p) / (q * p) == x / q
  {}

  lemma RealMulDiv(x: real, y: real, p: real, q: real)
    requires p != 0.0 && q != 0.0
    ensures (x * y) / (p * q) == (x / p) * (y / q)
  {}

  lemma RealAddDiv(x: real, y: real, p: real)
    requires p != 0.0
    ensures (x + y) / p == x / p + y / p
  {}

  lemma RealSubDiv(x: real, y: real, p: real)
    requires p != 0.0
    ensures x / p - y / p == (x - y) / p
  {}

  lemma RealDivDiv(x: real, y: real, p: real, q: real)
    requires p != 0.0 && q != 0.0 && y != 0.0
    ensures (x / p) / (y / q) == (x * q) / (y * p)
  {}

  lemma RealDivScaled(x: real, y: real, p: real)
    requires p != 0.0 && y != 0.0
    ensures (x / p) / (y / p) == x / y
  {}

  lemma RealAbsDiv(x: real, p: real)
    requires p > 0.0
    ensures AbsR(x / p) == AbsR(x) / p
  {}

  lemma RealAbsMul(x: real, y: real)
    ensures AbsR(x * y) == AbsR(x) * AbsR(y)
  {}

  lemma RealDivSign(x: real, p: real)
    requires p > 0.0
    ensures x / p < 0.0 <==> x < 0.0
    ensures x / p == 0.0 <==> x == 0.0
    ensures x / p > 0.0 <==> x > 0.0
  {}

  lemma RealDivLess(x: real, y: real, p: real)
    requires p > 0.0
    ensures x / p < y / p <==> x < y
    ensures x / p == y / p <==> x == y
  {}

  lemma RealTimesRecip(q: real, n: real, d: real)
    requires d != 0.0
    ensures (q - n / d) * d == q * d - n
  {}

  lemma RealHalfBound(e: real, d: real, k: real)
    requires d > 0.0 && e >= 0.0 && e * d == k
    ensures 2.0 * k <= d ==> 2.0 * e <= 1.0
    ensures 2.0 * k == d <==> 2.0 * e == 1.0
  {}

  lemma RealScaledGreater(x: real, y: real, d: real)
    requires d > 0.0
    requires Times(x, d) > Times(y, d)
    ensures x > y
  {}

  lemma RealNonZeroProduct(x: real, y: real)
    requires x != 0.0 && y != 0.0
    ensures x * y != 0.0
  {}

  lemma RealExactQuotient(t: real, y: real)
    requires y != 0.0
    ensures (t * y) / y == t
  {}

  lemma RealDivOne(x: real)
    ensures x / 1.0 == x
  {}

  lemma RealDivMul4(a: real, b: real, c: real, d: real, p: real)
    requires p != 0.0 && c * d != 0.0
    ensures (((a * b) * p) / (c * d)) / p == (a * b) / (c * d)
  {}

  lemma CastMul(a: int, b: int)
    ensures (a * b) as real == a as real * b as real
  {}

  lemma CastAbs(a: int)
    ensures Abs(a) as real == AbsR(a as real)
  {}

  lemma CastHalf(x: int, y: int)
    ensures 2 * x <= y <==> 2.0 * x as real <= y as real
    ensures 2 * x == y <==> 2.0 * x as real == y as real
  {}

  // ---------------------------------------------------------------------------

  /** The sign of a decimal is the sign of its unscaled value (what compareTo(ZERO) looks at). */
  lemma SignOfValue(d: Dec)
    ensures d.unscaled == 0 <==> Value(d) == 0.0
    ensures d.unscaled < 0 <==> Value(d) < 0.0
  {
    RealDivSign(d.unscaled as real, Pow10(d.scale) as real);
  }

  /** Adding k zero digits at the end changes the representation, not the value. */
  lemma ValueRescale(u: int, s: nat, k: nat)
    ensures Value(Dec(u * Pow10(k), s + k)) == Value(Dec(u, s))
  {
    Pow10Add(s, k);
    CastMul(u, Pow10(k));
    CastMul(Pow10(s), Pow10(k));
    RealCancel(u as real, Pow10(k) as real, Pow10(s) as real);
  }

  /** BigDecimal.compareTo(BigDecimal.ZERO), read off the unscaled value. */
  function CompareToZero(d: Dec): int
  {
    if d.unscaled < 0 then -1 else if d.unscaled == 0 then 0 else 1
  }

  /** compareTo(ZERO) compares values, not representations. */
  lemma CompareToZeroSign(d: Dec)
    ensures CompareToZero(d) < 0 <==> Value(d) < 0.0
    ensures CompareToZero(d) == 0 <==> Value(d) == 0.0
    ensures CompareToZero(d) > 0 <==> Value(d) > 0.0
  {
    SignOfValue(d);
  }

  /** The same value written with the (larger) scale s. */
  function Align(d: Dec, s: nat): (r: Dec)
    requires d.scale <= s
    ensures r.scale == s
  {
    Dec(d.unscaled * Pow10(s - d.scale), s)
  }

  lemma AlignValue(d: Dec, s: nat)
    requires d.scale <= s
    ensures Value(Align(d, s)) == Value(d)
  {
    ValueRescale(d.unscaled, d.scale, s - d.scale);
  }

  /** BigDecimal.add: exact, at the larger of the two scales. */
  function Add(a: Dec, b: Dec): (r: Dec)
    ensures r.scale == Max(a.scale, b.scale)
  {
    var s := Max(a.scale, b.scale);
    Dec(Align(a, s).unscaled + Align(b, s).unscaled, s)
  }

  lemma AddValue(a: Dec, b: Dec)
    ensures Value(Add(a, b)) == Value(a) + Value(b)
  {
    var s := Max(a.scale, b.scale);
    var x := Align(a, s);
    var y := Align(b, s);
    AlignValue(a, s);
    AlignValue(b, s);
    RealAddDiv(x.unscaled as real, y.unscaled as real, Pow10(s) as real);
  }

  /** BigDecimal.negate: exact, same scale. */
  function Neg(a: Dec): (r: Dec)
    ensures r.scale == a.scale
  {
    Dec(-a.unscaled, a.scale)
  }

  lemma NegValue(a: Dec)
    ensures Value(Neg(a)) == -Value(a)
  {}

  /** BigDecimal.subtract: exact, at the larger of the two scales. */
  function Sub(a: Dec, b: Dec): (r: Dec)
    ensures r.scale == Max(a.scale, b.scale)
  {
    Add(a, Neg(b))
  }

  lemma SubValue(a: Dec, b: Dec)
    ensures Value(Sub(a, b)) == Value(a) - Value(b)
  {
    AddValue(a, Neg(b));
    NegValue(b);
  }

  /** BigDecimal.multiply: exact, at the sum of the two scales. */
  function Mul(a: Dec, b: Dec): (r: Dec)
    ensures r.scale == a.scale + b.scale
  {
    Dec(a.unscaled * b.unscaled, a.scale + b.scale)
  }

  lemma MulValue(a: Dec, b: Dec)
    ensures Value(Mul(a, b)) == Times(Value(a), Value(b))
    ensures Value(Mul(a, b)) == Value(a) * Value(b)
  {
    ProductValue(a, b);
  }

  lemma Pow10Times(j: nat, k: nat)
    ensures Pow10(j + k) as real == Times(Pow10(j) as real, Pow10(k) as real)
  {
    Pow10Add(j, k);
    CastMul(Pow10(j), Pow10(k));
  }

  lemma RealProduct(v: real, va: real, vb: real, ua: real, ub: real, pa: real, pb: real, n: real, p: real)
    requires pa > 0.0 && pb > 0.0
    requires va == Over(ua, pa) && vb == Over(ub, pb)
    requires n == Times(ua, ub) && p == Times(pa, pb) && p != 0.0
    requires v == Over(n, p)
    ensures v == Times(va, vb)
  {
    RealMulDiv(ua, ub, pa, pb);
  }

  lemma ProductValue(a: Dec, b: Dec)
    ensures Value(Dec(a.unscaled * b.unscaled, a.scale + b.scale)) == Times(Value(a), Value(b))
  {
    var r := Dec(a.unscaled * b.unscaled, a.scale + b.scale);
    ValueOver(a);
    ValueOver(b);
    ValueOver(r);
    Pow10Times(a.scale, b.scale);
    CastTimes(a.unscaled, b.unscaled);
    RealProduct(Value(r), Value(a), Value(b), a.unscaled as real, b.unscaled as real,
                Pow10(a.scale) as real, Pow10(b.scale) as real,
                r.unscaled as real, Pow10(r.scale) as real);
  }

  lemma DivMod(a: int, m: int)
    requires m > 0
    ensures a == (a / m) * m + a % m && 0 <= a % m < m
  {}

  /** a / m rounded HALF_UP for a non-negative a: the nearest integer, a tie rounding up. */
  function RoundMagnitude(a: nat, m: int): nat
    requires m > 0
  {
    if 2 * (a % m) >= m then a / m + 1 else a / m
  }

  lemma RoundMagnitudeBounds(a: nat, m: int)
    requires m > 0
    ensures var q := RoundMagnitude(a, m);
      2 * Abs(a - q * m) <= m && (2 * Abs(a - q * m) == m ==> q * m > a)
  {
    var q0 := a / m;
    var r := a % m;
    DivMod(a, m);
    var q := RoundMagnitude(a, m);
    assert q * m == q0 * m + (if 2 * r >= m then m else 0) by {
      if 2 * r >= m { assert (q0 + 1) * m == q0 * m + m; }
    }
  }

  /** n / m rounded to an integer with RoundingMode.HALF_UP: to the nearest integer,
      and a tie goes away from zero. */
  function RoundHalfUp(n: int, m: int): int
    requires m > 0
  {
    var q1: int := RoundMagnitude(Abs(n), m);
    if n < 0 then -q1 else q1
  }

  lemma RoundHalfUpBounds(n: int, m: int)
    requires m > 0
    ensures var q := RoundHalfUp(n, m);
      2 * Abs(n - q * m) <= m && (2 * Abs(n - q * m) == m ==> Abs(q * m) > Abs(n))
  {
    var q1: int := RoundMagnitude(Abs(n), m);
    RoundMagnitudeBounds(Abs(n), m);
    if n < 0 {
      assert (-q1) * m == -(q1 * m);
    }
  }

  // ---------------------------------------------------------------------------
  // Division with rounding.

  /** Real product and quotient under names of their own: a fact stated with them passes
      from one lemma to the next by plain congruence. */
  ghost function Times(x: real, y: real): real
  {
    x * y
  }

  ghost function Over(x: real, y: real): real
    requires y != 0.0
  {
    x / y
  }

  /** q is n / d rounded to an integer, halves going away from zero. */
  ghost predicate RoundsTo(n: int, d: int, q: int)
  {
    2 * Abs(n - q * d) <= Abs(d)
    && (2 * Abs(n - q * d) == Abs(d) ==> Abs(q * d) > Abs(n))
  }

  /** One unit in the last place of a decimal with the given scale. */
  ghost function Ulp(scale: nat): real
  {
    1.0 / Pow10(scale) as real
  }

  /** r is x rounded to the nearest multiple of 10^-scale, halves going away from zero
      (RoundingMode.HALF_UP). */
  ghost predicate RoundedHalfUp(r: real, x: real, scale: nat)
  {
    2.0 * AbsR(r - x) <= Ulp(scale)
    && (2.0 * AbsR(r - x) == Ulp(scale) ==> AbsR(r) > AbsR(x))
  }

  /** Cast of |n - q * d| to the reals. */
  lemma CastAbsDiff(n: int, q: int, d: int)
    ensures Abs(n - q * d) as real == AbsR(n as real - q as real * d as real)
  {
    CastMul(q, d);
  }

  /** The integer rounding bound, read on reals: twice the distance of q from n / d is at
      most one when twice |n - q * d| is at most |d|, and it is exactly one on a tie. */
  lemma RealHalf(q: real, n: real, d: real)
    requires d != 0.0
    ensures 2.0 * AbsR(n - q * d) <= AbsR(d) ==> 2.0 * AbsR(q - n / d) <= 1.0
    ensures 2.0 * AbsR(n - q * d) == AbsR(d) <==> 2.0 * AbsR(q - n / d) == 1.0
  {
    RealTimesRecip(q, n, d);
    RealAbsMul(q - n / d, d);
    assert AbsR(n - q * d) == AbsR(q * d - n);
    RealHalfBound(AbsR(q - n / d), AbsR(d), AbsR(n - q * d));
  }

  lemma RealAbsTimes(x: real, y: real)
    ensures AbsR(Times(x, y)) == Times(AbsR(x), AbsR(y))
  {}

  lemma QuotientTimesDivisor(n: real, d: real)
    requires d != 0.0
    ensures Times(AbsR(Over(n, d)), AbsR(d)) == AbsR(n)
  {
    assert (n / d) * d == n;
    RealAbsMul(n / d, d);
  }

  lemma RealTieGreater(q: real, n: real, d: real)
    requires d != 0.0
    requires AbsR(Times(q, d)) > AbsR(n)
    ensures AbsR(q) > AbsR(Over(n, d))
  {
    RealAbsTimes(q, d);
    QuotientTimesDivisor(n, d);
    RealScaledGreater(AbsR(q), AbsR(Over(n, d)), AbsR(d));
  }

  /** On a tie the integer quotient is further from zero than n / d. */
  lemma TieGreater(n: int, d: int, q: int)
    requires d != 0
    requires Abs(q * d) > Abs(n)
    ensures AbsR(q as real) > AbsR(Over(n as real, d as real))
  {
    CastTimes(q, d);
    CastAbs(n);
    CastAbs(q * d);
    RealTieGreater(q as real, n as real, d as real);
  }

  /** An integer rounding of n / d, read on reals. */
  lemma HalfDistance(n: int, d: int, q: int)
    requires d != 0 && RoundsTo(n, d, q)
    ensures 2.0 * AbsR(q as real - Over(n as real, d as real)) <= 1.0
    ensures 2.0 * AbsR(q as real - Over(n as real, d as real)) == 1.0
            ==> AbsR(q as real) > AbsR(Over(n as real, d as real))
  {
    CastAbsDiff(n, q, d);
    CastAbs(d);
    CastHalf(Abs(n - q * d), Abs(d));
    RealHalf(q as real, n as real, d as real);
    if 2 * Abs(n - q * d) == Abs(d) {
      TieGreater(n, d, q);
    }
  }

  /** Scaling a distance down by p scales the bound with it. */
  lemma ScaledHalf(q: real, x: real, p: real)
    requires p > 0.0
    ensures 2.0 * AbsR(q - x) <= 1.0 ==> 2.0 * AbsR(Over(q, p) - Over(x, p)) <= Over(1.0, p)
    ensures 2.0 * AbsR(q - x) == 1.0 <==> 2.0 * AbsR(Over(q, p) - Over(x, p)) == Over(1.0, p)
  {
    RealSubDiv(q, x, p);
    RealAbsDiv(q - x, p);
    RealDivLess(2.0 * AbsR(q - x), 1.0, p);
    assert 2.0 * (AbsR(q - x) / p) == (2.0 * AbsR(q - x)) / p;
  }

  /** Scaling down by p keeps the order of magnitudes. */
  lemma ScaledGreater(q: real, x: real, p: real)
    requires p > 0.0
    ensures AbsR(q) > AbsR(x) ==> AbsR(Over(q, p)) > AbsR(Over(x, p))
  {
    RealAbsDiv(q, p);
    RealAbsDiv(x, p);
    RealDivLess(AbsR(x), AbsR(q), p);
  }

  /** A rounding to an integer, scaled down by 10^scale, is a rounding to scale places. */
  lemma ScaledRounding(q: real, x: real, scale: nat)
    requires 2.0 * AbsR(q - x) <= 1.0
    requires 2.0 * AbsR(q - x) == 1.0 ==> AbsR(q) > AbsR(x)
    ensures RoundedHalfUp(Over(q, Pow10(scale) as real), Over(x, Pow10(scale) as real), scale)
  {
    ScaledHalf(q, x, Pow10(scale) as real);
    ScaledGreater(q, x, Pow10(scale) as real);
    assert Ulp(scale) == Over(1.0, Pow10(scale) as real);
  }

  /** The two integers whose ratio Divide rounds: a / b times 10^scale is Numerator / Denominator. */
  function Numerator(a: Dec, b: Dec, scale: nat): int
  {
    a.unscaled * Pow10(b.scale + scale)
  }

  function Denominator(a: Dec, b: Dec): int
  {
    b.unscaled * Pow10(a.scale)
  }

  lemma CastTimes(u: int, v: int)
    ensures (u * v) as real == Times(u as real, v as real)
  {
    CastMul(u, v);
  }

  lemma RealTimesOfProduct(x: real, y: real, p: real, q: real)
    requires y == Times(p, q)
    ensures Times(x, y) == Times(Times(x, p), q)
  {}

  lemma NumeratorFactored(a: Dec, b: Dec, scale: nat)
    requires Pow10(b.scale + scale) == Pow10(b.scale) * Pow10(scale)
    ensures Numerator(a, b, scale) as real
         == Times(Times(a.unscaled as real, Pow10(b.scale) as real), Pow10(scale) as real)
  {
    CastTimes(a.unscaled, Pow10(b.scale + scale));
    CastTimes(Pow10(b.scale), Pow10(scale));
    RealTimesOfProduct(a.unscaled as real, Pow10(b.scale + scale) as real,
                       Pow10(b.scale) as real, Pow10(scale) as real);
  }

  lemma NumeratorReal(a: Dec, b: Dec, scale: nat)
    ensures Numerator(a, b, scale) as real
         == Times(Times(a.unscaled as real, Pow10(b.scale) as real), Pow10(scale) as real)
  {
    Pow10Add(b.scale, scale);
    NumeratorFactored(a, b, scale);
  }

  lemma DenominatorReal(a: Dec, b: Dec)
    ensures Denominator(a, b) as real == Times(b.unscaled as real, Pow10(a.scale) as real)
  {
    CastTimes(b.unscaled, Pow10(a.scale));
  }

  lemma ValueOver(d: Dec)
    ensures Value(d) == Over(d.unscaled as real, Pow10(d.scale) as real)
  {}

  lemma RealQuotient(va: real, vb: real, ua: real, ub: real, pa: real, pb: real, ps: real, n: real, d: real)
    requires pa > 0.0 && pb > 0.0 && ps > 0.0 && ub != 0.0
    requires va == Over(ua, pa) && vb == Over(ub, pb)
    requires n == Times(Times(ua, pb), ps) && d == Times(ub, pa)
    ensures vb != 0.0 && d != 0.0
    ensures Over(va, vb) == Over(Over(n, d), ps)
  {
    RealNonZeroProduct(ub, pa);
    RealNonZeroQuotient(ub, pb);
    assert vb == ub / pb && d == ub * pa && n == (ua * pb) * ps;
    RealDivDiv(ua, ub, pa, pb);
    RealDivMul4(ua, pb, ub, pa, ps);
    assert Over(va, vb) == va / vb;
    assert Over(Over(n, d), ps) == (n / d) / ps;
  }

  lemma RealNonZeroQuotient(x: real, p: real)
    requires x != 0.0 && p > 0.0
    ensures x / p != 0.0
  {}

  /** a / b is Numerator / Denominator scaled down by 10^scale. */
  lemma QuotientValue(a: Dec, b: Dec, scale: nat)
    requires b.unscaled != 0
    ensures Value(b) != 0.0 && Denominator(a, b) != 0
    ensures Over(Value(a), Value(b))
         == Over(Over(Numerator(a, b, scale) as real, Denominator(a, b) as real), Pow10(scale) as real)
  {
    NumeratorReal(a, b, scale);
    DenominatorReal(a, b);
    ValueOver(a);
    ValueOver(b);
    RealQuotient(Value(a), Value(b), a.unscaled as real, b.unscaled as real,
                 Pow10(a.scale) as real, Pow10(b.scale) as real, Pow10(scale) as real,
                 Numerator(a, b, scale) as real, Denominator(a, b) as real);
  }

  /** The integer quotient n / d rounded half up. */
  function QuotientDigits(n: int, d: int): int
    requires d != 0
  {
    if d > 0 then RoundHalfUp(n, d) else RoundHalfUp(-n, -d)
  }

  lemma QuotientRounds(n: int, d: int)
    requires d != 0
    ensures RoundsTo(n, d, QuotientDigits(n, d))
  {
    if d > 0 {
      RoundHalfUpBounds(n, d);
    } else {
      var q := RoundHalfUp(-n, -d);
      RoundHalfUpBounds(-n, -d);
      assert n - q * d == -((-n) - q * (-d));
      assert Abs(q * d) == Abs(q * (-d));
    }
  }

  /** BigDecimal.divide(b, scale, RoundingMode.HALF_UP): the quotient at exactly that scale. */
  function Divide(a: Dec, b: Dec, scale: nat): (r: Dec)
    requires b.unscaled != 0
    ensures r.scale == scale
  {
    Dec(QuotientDigits(Numerator(a, b, scale), Denominator(a, b)), scale)
  }

  /** The result of Divide is a / b rounded half up to scale places. */
  lemma DivideRounds(a: Dec, b: Dec, scale: nat)
    requires b.unscaled != 0
    ensures Value(b) != 0.0
    ensures RoundedHalfUp(Value(Divide(a, b, scale)), Value(a) / Value(b), scale)
  {
    var q := Divide(a, b, scale).unscaled;
    QuotientRounds(Numerator(a, b, scale), Denominator(a, b));
    QuotientValue(a, b, scale);
    HalfDistance(Numerator(a, b, scale), Denominator(a, b), q);
    ValueOver(Divide(a, b, scale));
    ScaledRounding(q as real, Over(Numerator(a, b, scale) as real, Denominator(a, b) as real), scale);
  }

  /** BigDecimal.setScale(scale, RoundingMode.HALF_UP), which is division by one at that scale. */
  function SetScale(d: Dec, scale: nat): (r: Dec)
    ensures r.scale == scale
  {
    Divide(d, One, scale)
  }

  /** setScale rounds d half up to scale places. */
  lemma SetScaleRounds(d: Dec, scale: nat)
    ensures RoundedHalfUp(Value(SetScale(d, scale)), Value(d), scale)
  {
    DivideRounds(d, One, scale);
    assert Value(One) == 1.0;
    RealDivOne(Value(d));
  }

  // ---------------------------------------------------------------------------
  // Remainder.

  /** Java's integer quotient, truncated toward zero. */
  function TruncDiv(x: int, y: int): int
    requires y != 0
  {
    var q := Abs(x) / Abs(y);
    if (x < 0) != (y < 0) then -q else q
  }

  /** What is left of x after taking away y times the truncated quotient. */
  function TruncRem(x: int, y: int): int
    requires y != 0
  {
    x - TruncDiv(x, y) * y
  }

  /** The product of the truncated quotient with y, in terms of |y|. */
  lemma TruncProduct(x: int, y: int, q: int, t: int)
    requires y != 0 && q >= 0
    requires t == if (x < 0) != (y < 0) then -q else q
    ensures t * y == if x >= 0 then q * Abs(y) else -(q * Abs(y))
  {
    if y > 0 {
      assert Abs(y) == y;
      if x < 0 { NegMul(q, y); }
    } else {
      assert Abs(y) == -y;
      NegMul(q, Abs(y));
      if x >= 0 { NegMul(q, y); }
    }
  }

  lemma NegMul(q: int, y: int)
    ensures (-q) * y == -(q * y) && q * (-y) == -(q * y)
  {}

  lemma TruncMagnitude(x: int, y: int, q: int)
    requires y != 0 && q == Abs(x) / Abs(y)
    ensures 0 <= Abs(x) - q * Abs(y) < Abs(y)
  {
    DivMod(Abs(x), Abs(y));
  }

  /** The truncated remainder is smaller than y in magnitude and has the sign of x. */
  lemma TruncRemBounds(x: int, y: int)
    requires y != 0
    ensures Abs(TruncRem(x, y)) < Abs(y)
    ensures x >= 0 ==> TruncRem(x, y) >= 0
    ensures x <= 0 ==> TruncRem(x, y) <= 0
  {
    var q := Abs(x) / Abs(y);
    TruncMagnitude(x, y, q);
    TruncProduct(x, y, q, TruncDiv(x, y));
  }

  lemma TruncRemReal(x: int, y: int)
    requires y != 0
    ensures x as real - TruncRem(x, y) as real == Times(TruncDiv(x, y) as real, y as real)
  {
    CastTimes(TruncDiv(x, y), y);
  }

  /** BigDecimal.remainder: a minus b times the quotient a / b truncated to an integer,
      both brought to the larger scale first. */
  function Remainder(a: Dec, b: Dec): (r: Dec)
    requires b.unscaled != 0
  {
    var s := Max(a.scale, b.scale);
    Dec(TruncRem(Align(a, s).unscaled, Align(b, s).unscaled), s)
  }

  ghost predicate IsInteger(x: real)
  {
    x.Floor as real == x
  }

  lemma RealRemainder(vx: real, vy: real, vr: real, ux: real, uy: real, ur: real, t: int, p: real)
    requires p > 0.0 && uy != 0.0
    requires vx == Over(ux, p) && vy == Over(uy, p) && vr == Over(ur, p)
    requires AbsR(ur) < AbsR(uy)
    requires ux >= 0.0 ==> ur >= 0.0
    requires ux <= 0.0 ==> ur <= 0.0
    requires ux - ur == Times(t as real, uy)
    ensures vy != 0.0
    ensures AbsR(vr) < AbsR(vy)
    ensures vx >= 0.0 ==> vr >= 0.0
    ensures vx <= 0.0 ==> vr <= 0.0
    ensures IsInteger(Over(vx - vr, vy))
  {
    RealNonZeroQuotient(uy, p);
    RealAbsDiv(ur, p);
    RealAbsDiv(uy, p);
    RealDivLess(AbsR(ur), AbsR(uy), p);
    RealDivSign(ux, p);
    RealDivSign(ur, p);
    RealSubDiv(ux, ur, p);
    RealDivScaled(t as real * uy, uy, p);
    RealExactQuotient(t as real, uy);
    assert Over(vx - vr, vy) == t as real;
  }

  /** The remainder is smaller than b in magnitude, has the sign of a (or is zero),
      and differs from a by a whole multiple of b. */
  lemma RemainderBounds(a: Dec, b: Dec)
    requires b.unscaled != 0
    ensures Value(b) != 0.0
    ensures AbsR(Value(Remainder(a, b))) < AbsR(Value(b))
    ensures Value(a) >= 0.0 ==> Value(Remainder(a, b)) >= 0.0
    ensures Value(a) <= 0.0 ==> Value(Remainder(a, b)) <= 0.0
    ensures IsInteger(Over(Value(a) - Value(Remainder(a, b)), Value(b)))
  {
    var s := Max(a.scale, b.scale);
    var x, y := Align(a, s), Align(b, s);
    var r := Remainder(a, b);
    AlignValue(a, s);
    AlignValue(b, s);
    TruncRemBounds(x.unscaled, y.unscaled);
    TruncRemReal(x.unscaled, y.unscaled);
    CastAbs(r.unscaled);
    CastAbs(y.unscaled);
    ValueOver(x);
    ValueOver(y);
    ValueOver(r);
    RealRemainder(Value(x), Value(y), Value(r), x.unscaled as real, y.unscaled as real,
                  r.unscaled as real, TruncDiv(x.unscaled, y.unscaled), Pow10(s) as real);
  }

  // ---------------------------------------------------------------------------
  // Equal values.

  /** u with k zero digits appended. */
  function Shift(u: int, k: nat): int
  {
    u * Pow10(k)
  }

  lemma ShiftValue(u: int, s: nat, k: nat)
    ensures Value(Dec(Shift(u, k), s + k)) == Value(Dec(u, s))
  {
    ValueRescale(u, s, k);
  }

  lemma ShiftTen(u: int, k: nat)
    requires k > 0
    ensures Shift(u, k) % 10 == 0
  {
    assert Shift(u, k) == (u * Pow10(k - 1)) * 10;
  }

  lemma RealDivInjective(x: real, y: real, p: real)
    requires p > 0.0 && Over(x, p) == Over(y, p)
    ensures x == y
  {
    RealDivLess(x, y, p);
  }

  /** At one scale, equal values have equal unscaled parts. */
  lemma SameScale(u1: int, u2: int, s: nat)
    requires Value(Dec(u1, s)) == Value(Dec(u2, s))
    ensures u1 == u2
  {
    ValueOver(Dec(u1, s));
    ValueOver(Dec(u2, s));
    RealDivInjective(u1 as real, u2 as real, Pow10(s) as real);
  }
}
