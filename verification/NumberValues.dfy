/** The number that a binary64 value stands for, as a real. */
module NumberValues {
  import opened Radix
  import opened Numbers

  function Amount64(x: Number): real
    requires !x.NonFinite?
  {
    if x.Finite? then Amount(DecimalForm(x.negative, x.digits, x.point)) else 0.0
  }

  /** Zero or finite, and not the negative zero. */
  predicate IsPlain(x: Number) {
    x.Zero? || x.Finite?
  }

  // ---------- scaling ----------

  lemma {:induction false} ScaledNegates(m: int, e: int)
    ensures Scaled(-m, e) == -Scaled(m, e)
    decreases Abs(e)
  {
    if e > 0 {
      ScaledNegates(m, e - 1);
    } else if e < 0 {
      ScaledNegates(m, e + 1);
    }
  }

  lemma {:induction false} ScaledPositive(m: int, e: int)
    requires m > 0
    ensures Scaled(m, e) > 0.0
    decreases Abs(e)
  {
    if e > 0 {
      ScaledPositive(m, e - 1);
    } else if e < 0 {
      ScaledPositive(m, e + 1);
    }
  }

  lemma {:induction false} ScaledInjective(m: int, n: int, e: int)
    requires Scaled(m, e) == Scaled(n, e)
    ensures m == n
    decreases Abs(e)
  {
    if e > 0 {
      ScaledInjective(m, n, e - 1);
    } else if e < 0 {
      ScaledInjective(m, n, e + 1);
    }
  }

  /** The same number at a lower scale is a multiple of ten there. */
  lemma {:induction false} LowerScaleEndsInZero(m: int, e: int, n: int, f: int)
    requires e < f && Scaled(m, e) == Scaled(n, f)
    ensures m % 10 == 0
    decreases f - e
  {
    ScaledTimesTen(n, f - 1);
    if f - 1 == e {
      ScaledInjective(m, n * 10, e);
    } else {
      LowerScaleEndsInZero(m, e, n * 10, f - 1);
    }
  }

  // ---------- a value is determined by its number ----------

  lemma {:induction false} CoefficientEnds(ds: seq<int>)
    requires IsCoefficient(ds)
    ensures Num(10, ds) > 0 && Num(10, ds) % 10 != 0
    ensures Minimal(10, Num(10, ds)) == ds
  {
    NumPositive(10, ds);
    LastDigit(10, ds);
    MinimalOfNum(10, ds);
  }

  lemma {:induction false} AmountSign(x: Number)
    requires x.Finite?
    ensures if x.negative then Amount64(x) < 0.0 else Amount64(x) > 0.0
  {
    CoefficientEnds(x.digits);
    ScaledPositive(Num(10, x.digits), x.point - |x.digits|);
    ScaledNegates(Num(10, x.digits), x.point - |x.digits|);
  }

  lemma {:induction false} SameScaledSame(a: seq<int>, p: int, b: seq<int>, q: int)
    requires IsCoefficient(a) && IsCoefficient(b)
    requires Scaled(Num(10, a), p - |a|) == Scaled(Num(10, b), q - |b|)
    ensures a == b && p == q
  {
    var m, n := Num(10, a), Num(10, b);
    CoefficientEnds(a);
    CoefficientEnds(b);
    if p - |a| < q - |b| {
      LowerScaleEndsInZero(m, p - |a|, n, q - |b|);
    } else if q - |b| < p - |a| {
      LowerScaleEndsInZero(n, q - |b|, m, p - |a|);
    } else {
      ScaledInjective(m, n, p - |a|);
    }
  }

  /** Different plain values are different numbers. */
  lemma {:induction false} AmountDetermines(x: Number, y: Number)
    requires IsPlain(x) && IsPlain(y) && Amount64(x) == Amount64(y)
    ensures x == y
  {
    if x.Finite? {
      AmountSign(x);
    }
    if y.Finite? {
      AmountSign(y);
    }
    if x.Finite? && y.Finite? {
      ScaledNegates(Num(10, x.digits), x.point - |x.digits|);
      ScaledNegates(Num(10, y.digits), y.point - |y.digits|);
      SameScaledSame(x.digits, x.point, y.digits, y.point);
    }
  }

  // ---------- integers ----------

  predicate IsIntegral(r: real) {
    r.Floor as real == r
  }

  /** A number at a negative scale that does not end in zero is no integer, whatever its sign. */
  lemma {:induction false} LowScaleIsNotIntegral(m: int, e: int, negative: bool, r: real)
    requires e < 0 && m % 10 != 0 && r == if negative then Scaled(-m, e) else Scaled(m, e)
    ensures !IsIntegral(r)
  {
    ScaledNegates(m, e);
    if IsIntegral(r) {
      var n := if negative then -r.Floor else r.Floor;
      assert Scaled(n, 0) == n as real == Scaled(m, e);
      LowerScaleEndsInZero(m, e, n, 0);
    }
  }

  /** The number is an integer exactly if no digit comes after the point. */
  lemma {:induction false} IntegralExactly(x: Number)
    requires IsPlain(x)
    ensures IsIntegral(Amount64(x)) <==> IsInteger(x)
  {
    if x.Finite? {
      if IsInteger(x) {
        MagnitudeIsAmount(x);
      } else {
        CoefficientEnds(x.digits);
        LowScaleIsNotIntegral(Num(10, x.digits), x.point - |x.digits|, x.negative, Amount64(x));
      }
    }
  }

  lemma {:induction false} ScaledIsShifted(ds: seq<int>, e: nat)
    ensures Num(10, ds + Zeros(e)) as real == Scaled(Num(10, ds), e)
  {
    if e == 0 {
      assert ds + Zeros(0) == ds;
    } else {
      ScaledIsShifted(ds, e - 1);
      assert ds + Zeros(e) == ds + Zeros(e - 1) + [0];
      NumSnoc(10, ds + Zeros(e - 1), 0);
    }
  }

  lemma {:induction false} MagnitudeIsAmount(x: Number)
    requires x.Finite? && IsInteger(x)
    ensures Amount64(x) == (if x.negative then -Magnitude(x) else Magnitude(x)) as real
  {
    ScaledIsShifted(x.digits, x.point - |x.digits|);
    ScaledNegates(Num(10, x.digits), x.point - |x.digits|);
  }

  /** The value of an integer is that integer. */
  lemma {:induction false} IntegerAmount(v: int)
    ensures IsPlain(FromInteger(v)) && Amount64(FromInteger(v)) == v as real
    ensures IsInteger(FromInteger(v))
    ensures FromInteger(v).Finite? ==> Magnitude(FromInteger(v)) == Abs(v)
  {
    if v != 0 {
      var ds := Decimal(Abs(v));
      var d := DecimalForm(v < 0, ds, |ds|);
      DecimalValue(Abs(v));
      NormaliseWellFormed(d);
      NormaliseKeepsAmount(d, FromInteger(v));
      assert Amount(d) == v as real;
      if FromInteger(v).Finite? {
        AmountSign(FromInteger(v));
        MagnitudeIsAmount(FromInteger(v));
      }
    }
  }
}
