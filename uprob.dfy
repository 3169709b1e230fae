/** The upper-tail probability of the standard normal distribution, as the
    consensus step computes it for every edge's z-score (a port of the Perl
    Statistics::Distribution::uprob routine). Reals stand for doubles; `exp`
    is a parameter, since the model does not define the exponential. */
module Uprob {

  /** sqrt(2 * pi) as the double Python's math module yields. */
  const Sqrt2Pi: real := 2.5066282746310002

  function Abs(x: real): (r: real)
    ensures r >= 0.0 && (r == x || r == -x)
  {
    if x < 0.0 then -x else x
  }

  /** x ** k for a natural exponent, by repeated squaring. */
  function Power(x: real, k: nat): real
  {
    if k == 0 then 1.0
    else if k % 2 == 0 then Power(x, k / 2) * Power(x, k / 2)
    else x * Power(x, k - 1)
  }

  /** The exponent 16 of the small-argument branch. */
  function SmallExponent(): nat
  {
    16
  }

  lemma ProductPositive(u: real, v: real)
    requires u > 0.0 && v > 0.0
    ensures u * v > 0.0
  {
  }

  lemma ProductNonNegative(u: real, v: real)
    requires u >= 0.0 && v >= 0.0
    ensures u * v >= 0.0
  {
  }

  /** Every power of a base of at least 1 is at least 1. */
  lemma {:induction false} PowerAtLeastOne(x: real, k: nat)
    requires x >= 1.0
    ensures Power(x, k) >= 1.0
  {
    if k == 0 {
    } else if k % 2 == 0 {
      PowerAtLeastOne(x, k / 2);
      var h := Power(x, k / 2);
      ProductNonNegative(h - 1.0, h - 1.0);
      assert h * h == (h - 1.0) * (h - 1.0) + 2.0 * h - 1.0;
    } else {
      PowerAtLeastOne(x, k - 1);
      ProductNonNegative(x - 1.0, Power(x, k - 1));
    }
  }

  /** Multiplying a smaller positive factor by a smaller positive factor. */
  lemma ProductStrictlyMonotone(a: real, b: real, c: real, d: real)
    requires 0.0 < a < b && 0.0 < c <= d
    ensures a * c < b * d
  {
    ProductNonNegative(b, d - c);
    ProductPositive(b - a, c);
    assert b * d - a * c == b * (d - c) + (b - a) * c;
  }

  /** For bases of at least 1, a positive power grows strictly with the base. */
  lemma {:induction false} PowerStrictlyMonotone(x: real, y: real, k: nat)
    requires 1.0 <= x < y && k >= 1
    ensures Power(x, k) < Power(y, k)
  {
    if k % 2 == 0 {
      PowerStrictlyMonotone(x, y, k / 2);
      PowerAtLeastOne(x, k / 2);
      ProductStrictlyMonotone(Power(x, k / 2), Power(y, k / 2), Power(x, k / 2), Power(y, k / 2));
    } else if k > 1 {
      PowerStrictlyMonotone(x, y, k - 1);
      PowerAtLeastOne(x, k - 1);
      ProductStrictlyMonotone(x, y, Power(x, k - 1), Power(y, k - 1));
    }
  }

  /** Every power of 1 is 1. */
  lemma {:induction false} PowerOfOne(k: nat)
    ensures Power(1.0, k) == 1.0
  {
    if k > 0 {
      if k % 2 == 0 {
        PowerOfOne(k / 2);
      } else {
        PowerOfOne(k - 1);
      }
    }
  }

  /** The value 1 / base ** 16 / 2 of the small-argument branch. */
  function SmallBranch(base: real): (r: real)
    requires base >= 1.0
    ensures 0.0 < r <= 0.5
  {
    PowerAtLeastOne(base, SmallExponent());
    var q := Power(base, SmallExponent());
    assert 1.0 / q * q == 1.0;
    1.0 / q / 2.0
  }

  /** The coefficients d1..d6 of formula 26.2.19 of Abramowitz and Stegun. */
  const D1: real := 0.049867347
  const D2: real := 0.0211410061
  const D3: real := 0.0032776263
  const D4: real := 0.0000380036
  const D5: real := 0.0000488906
  const D6: real := 0.000005383

  /** The polynomial 1 + d1 a + d2 a^2 + ... + d6 a^6 in expanded form. */
  function Ref26219(a: real): real
  {
    1.0 + D1 * a + D2 * a * a + D3 * a * a * a + D4 * a * a * a * a
      + D5 * a * a * a * a * a + D6 * a * a * a * a * a * a
  }

  /** The polynomial of the small-argument branch, nested in Horner form as the
      Perl original nests it. */
  function PolyBase(a: real): real
  {
    1.0 + a * (D1 + a * (D2 + a * (D3 + a * (D4 + a * (D5 + a * D6)))))
  }

  /** For a non-negative argument the nested polynomial is at least 1. */
  lemma PolyBaseAtLeastOne(a: real)
    requires a >= 0.0
    ensures PolyBase(a) >= 1.0
  {
    ProductNonNegative(a, D5 + a * D6);
    ProductNonNegative(a, D4 + a * (D5 + a * D6));
    ProductNonNegative(a, D3 + a * (D4 + a * (D5 + a * D6)));
    ProductNonNegative(a, D2 + a * (D3 + a * (D4 + a * (D5 + a * D6))));
    ProductNonNegative(a, D1 + a * (D2 + a * (D3 + a * (D4 + a * (D5 + a * D6)))));
  }

  /** The same polynomial as both Python copies parenthesise it: the d3 term is
      added beside the nested tail instead of enclosing it. */
  function PolyBaseAsWritten(a: real): real
  {
    1.0 + a * (D1 + a * (D2 + a * D3 + a * (D4 + a * (D5 + a * D6))))
  }

  /** For a non-negative argument the polynomial as written is at least 1 too. */
  lemma PolyBaseAsWrittenAtLeastOne(a: real)
    requires a >= 0.0
    ensures PolyBaseAsWritten(a) >= 1.0
  {
    ProductNonNegative(a, D5 + a * D6);
    ProductNonNegative(a, D4 + a * (D5 + a * D6));
    ProductNonNegative(a, D3);
    ProductNonNegative(a, D2 + a * D3 + a * (D4 + a * (D5 + a * D6)));
    ProductNonNegative(a, D1 + a * (D2 + a * D3 + a * (D4 + a * (D5 + a * D6))));
  }

  /** The Horner form is formula 26.2.19. */
  lemma PolyBaseIsReference(a: real)
    ensures PolyBase(a) == Ref26219(a)
  {
    calc {
      PolyBase(a);
      1.0 + a * D1 + a * a * D2 + a * a * a * D3 + a * a * a * a * D4
        + a * a * a * a * a * D5 + a * a * a * a * a * a * D6;
      Ref26219(a);
    }
  }

  function Cube(a: real): real
  {
    a * a * a
  }

  /** d4 + a d5 + a^2 d6, the part of the polynomial the misplaced parenthesis moves. */
  function HighTerms(a: real): real
  {
    D4 + a * (D5 + a * D6)
  }

  /** For a non-negative argument, the parenthesisation as written is formula
      26.2.19 exactly at a = 0 and a = 1. */
  lemma PolyBaseAsWrittenAgreesOnlyAtZeroOne(a: real)
    requires a >= 0.0
    ensures PolyBaseAsWritten(a) == Ref26219(a) <==> a == 0.0 || a == 1.0
  {
    PolyBaseIsReference(a);
    DeviationZeroIff(a, PolyBaseAsWritten(a), PolyBase(a));
  }

  /** The parenthesisation as written is off by a^3 (1 - a) (d4 + a d5 + a^2 d6),
      which for a >= 0 vanishes exactly at a = 0 and a = 1. */
  lemma DeviationZeroIff(a: real, w: real, h: real)
    requires a >= 0.0 && w - h == Cube(a) * (1.0 - a) * HighTerms(a)
    ensures w == h <==> a == 0.0 || a == 1.0
  {
    if a > 0.0 && a != 1.0 {
      assert Cube(a) > 0.0 && HighTerms(a) > 0.0 by {
        ProductNonNegative(a, D5 + a * D6);
        ProductPositive(a, a);
        ProductPositive(a * a, a);
      }
      NonZeroProduct(Cube(a), 1.0 - a, HighTerms(a));
    }
  }

  lemma NonZeroProduct(c: real, d: real, x: real)
    requires c > 0.0 && d != 0.0 && x > 0.0
    ensures c * d * x != 0.0
  {
    if d > 0.0 {
      ProductPositive(c, d);
      ProductPositive(c * d, x);
    } else {
      ProductPositive(c, -d);
      ProductPositive(c * -d, x);
      assert c * d * x == -(c * -d * x);
    }
  }

  /** The value of the continued fraction i / (a + (i+1) / (a + ... 18 / (a + 0)))
      that the large-argument loop builds from the inside out; 19 stands for the
      starting value 0. */
  function Tail(a: real, i: nat): (r: real)
    requires a > 0.0 && 1 <= i <= 19
    ensures 0.0 <= r <= (i as real) / a
    decreases 19 - i
  {
    if i == 19 then 0.0
    else
      var t := Tail(a, i + 1);
      DivideAtMost(i as real, a, t);
      (i as real) / (a + t)
  }

  lemma DivideAtMost(n: real, a: real, t: real)
    requires n >= 0.0 && a > 0.0 && t >= 0.0
    ensures 0.0 <= n / (a + t) <= n / a
  {
    assert n / (a + t) * (a + t) == n;
    assert n / a * a == n;
  }

  /** The exponent -a^2 / 2 of the normal density. */
  function Gaussian(a: real): (r: real)
    ensures r <= 0.0
  {
    ProductNonNegative(if a < 0.0 then -a else a, if a < 0.0 then -a else a);
    assert a * a == (if a < 0.0 then -a else a) * (if a < 0.0 then -a else a);
    -0.5 * a * a
  }

  /** The value exp(-a^2 / 2) / sqrt(2 pi) / (a + t) of the large-argument branch,
      where e is the value of the exponential and t the continued fraction. */
  function LargeBranch(a: real, e: real, t: real): (r: real)
    requires a >= 1.9 && t >= 0.0
    ensures 0.0 <= e <= 1.0 ==> 0.0 <= r <= 0.5
  {
    var u := e / Sqrt2Pi;
    var r := u / (a + t);
    assert 0.0 <= e <= 1.0 ==> 0.0 <= r <= 0.5 by {
      if 0.0 <= e <= 1.0 {
        assert u * Sqrt2Pi == e;
        assert 0.0 <= u <= 1.0;
        assert r * (a + t) == u;
        DivideAtMost(u, a, t);
        assert u / a * a == u;
      }
    }
    r
  }

  /** The upper-tail probability of |n| before the sign of n is taken into account. */
  function UpperOfAbs(a: real, exp: real -> real): real
    requires a >= 0.0
  {
    if a < 1.9 then (PolyBaseAtLeastOne(a); SmallBranch(PolyBase(a)))
    else if a <= 100.0 then LargeBranch(a, exp(Gaussian(a)), Tail(a, 1))
    else 0.0
  }

  /** uprob(n): the upper-tail probability, the complement for negative n. */
  function UprobSpec(n: real, exp: real -> real): real
  {
    var p := UpperOfAbs(Abs(n), exp);
    if n < 0.0 then 1.0 - p else p
  }

  /** uprob exactly as the Python copies are parenthesised. */
  function UprobAsWritten(n: real, exp: real -> real): real
  {
    var a := Abs(n);
    var p := if a < 1.9 then (PolyBaseAsWrittenAtLeastOne(a); SmallBranch(PolyBaseAsWritten(a)))
      else if a <= 100.0 then LargeBranch(a, exp(Gaussian(a)), Tail(a, 1))
      else 0.0;
    if n < 0.0 then 1.0 - p else p
  }

  /** Distinct bases give distinct small-branch values. */
  lemma SmallBranchInjective(w: real, h: real)
    requires w >= 1.0 && h >= 1.0 && w != h
    ensures SmallBranch(w) != SmallBranch(h)
  {
    if w < h {
      PowerStrictlyMonotone(w, h, SmallExponent());
    } else {
      PowerStrictlyMonotone(h, w, SmallExponent());
    }
    PowerAtLeastOne(w, SmallExponent());
    PowerAtLeastOne(h, SmallExponent());
    var qw, qh := Power(w, SmallExponent()), Power(h, SmallExponent());
    assert 1.0 / qw * qw == 1.0;
    assert 1.0 / qh * qh == 1.0;
  }

  /** Outside the small-argument branch, and at 0 and at +-1 inside it, the
      as-written uprob is the intended one. */
  lemma UprobAsWrittenAgreesElsewhere(n: real, exp: real -> real)
    requires !(0.0 < Abs(n) < 1.9 && Abs(n) != 1.0)
    ensures UprobAsWritten(n, exp) == UprobSpec(n, exp)
  {
    var a := Abs(n);
    if a < 1.9 {
      PolyBaseAsWrittenAgreesOnlyAtZeroOne(a);
      PolyBaseIsReference(a);
    }
  }

  /** A concrete argument for the discrepancy: uprob(0.5), whose as-written value
      is the one the test suite records. */
  lemma UprobAsWrittenAtHalf(exp: real -> real)
    ensures UprobAsWritten(0.5, exp) != UprobSpec(0.5, exp)
  {
    PolyBaseAsWrittenAgreesOnlyAtZeroOne(0.5);
    PolyBaseIsReference(0.5);
    PolyBaseAtLeastOne(0.5);
    PolyBaseAsWrittenAtLeastOne(0.5);
    SmallBranchInjective(PolyBaseAsWritten(0.5), PolyBase(0.5));
  }

  /** A double as the consensus script can meet it: a real, or NaN (what np.sqrt
      yields for a negative argument). */
  datatype Float = Num(value: real) | NaN

  /** Which parenthesisation of the small-argument polynomial: AsWritten is the
      Python code, Intended the nested form of formula 26.2.19. */
  datatype Form = AsWritten | Intended

  /** uprob(n) in the given form. A NaN fails both `abs(n) < 1.9` and
      `abs(n) <= 100`, and `n < 0`, so p keeps its initial 0. */
  function UprobOf(form: Form, n: Float, exp: real -> real): real
  {
    match n
      case NaN => 0.0
      case Num(x) => if form == AsWritten then UprobAsWritten(x, exp) else UprobSpec(x, exp)
  }

  /** uprob(n), with the large-argument loop p = i / (|n| + p) for i = 18 .. 1.
      With `Intended` it is the intended (nested A&S 26.2.19) uprob, UprobSpec; with
      `AsWritten` it is the value the Python code computes, UprobAsWritten. */
  method Uprob(n: Float, exp: real -> real, form: Form) returns (p: real)
    ensures n.NaN? ==> p == 0.0
    ensures n.Num? && form == Intended ==> p == UprobSpec(n.value, exp)
    ensures n.Num? && form == AsWritten ==> p == UprobAsWritten(n.value, exp)
  {
    p := 0.0;
    if n.NaN? {
      return;
    }
    var a := Abs(n.value);
    if a < 1.9 {
      if form == Intended {
        PolyBaseAtLeastOne(a);
        p := SmallBranch(PolyBase(a));
      } else {
        PolyBaseAsWrittenAtLeastOne(a);
        p := SmallBranch(PolyBaseAsWritten(a));
      }
    } else if a <= 100.0 {
      for i := 19 downto 1
        invariant p == Tail(a, i)
      {
        p := (i as real) / (a + p);
      }
      p := LargeBranch(a, exp(Gaussian(a)), p);
    }
    if n.value < 0.0 {
      p := 1.0 - p;
    }
  }

  /** uprob(0) is one half. */
  lemma UprobAtZero(exp: real -> real)
    ensures UprobSpec(0.0, exp) == 0.5
  {
    PowerOfOne(SmallExponent());
  }

  /** uprob(-n) == 1 - uprob(n). */
  lemma UprobSymmetric(n: real, exp: real -> real)
    ensures UprobSpec(-n, exp) == 1.0 - UprobSpec(n, exp)
  {
    if n == 0.0 {
      UprobAtZero(exp);
    }
  }

  /** Beyond |n| > 100 the probability is exactly 0 above and 1 below. */
  lemma UprobTails(n: real, exp: real -> real)
    ensures n > 100.0 ==> UprobSpec(n, exp) == 0.0
    ensures n < -100.0 ==> UprobSpec(n, exp) == 1.0
  {
  }

  /** With an exponential that maps non-positive arguments into [0, 1], the
      upper-tail probability of a non-negative n is in [0, 1/2] and that of a
      non-positive n in [1/2, 1]. */
  lemma UprobRange(n: real, exp: real -> real)
    requires forall x :: x <= 0.0 ==> 0.0 <= exp(x) <= 1.0
    ensures n >= 0.0 ==> 0.0 <= UprobSpec(n, exp) <= 0.5
    ensures n <= 0.0 ==> 0.5 <= UprobSpec(n, exp) <= 1.0
  {
    var a := Abs(n);
    if n == 0.0 {
      UprobAtZero(exp);
    } else if 1.9 <= a <= 100.0 {
      assert 0.0 <= exp(Gaussian(a)) <= 1.0;
    }
  }

  /** Both forms keep the symmetry: uprob(-n) == 1 - uprob(n). */
  lemma UprobOfSymmetric(form: Form, n: real, exp: real -> real)
    ensures UprobOf(form, Num(-n), exp) == 1.0 - UprobOf(form, Num(n), exp)
  {
    if form == Intended {
      UprobSymmetric(n, exp);
    }
  }

  /** Both forms keep the ranges: at most 1/2 for n >= 0, at least 1/2 for n <= 0,
      given that exp maps the non-positive reals into [0, 1]. */
  lemma UprobOfRange(form: Form, n: real, exp: real -> real)
    requires forall x :: x <= 0.0 ==> 0.0 <= exp(x) <= 1.0
    ensures n >= 0.0 ==> 0.0 <= UprobOf(form, Num(n), exp) <= 0.5
    ensures n <= 0.0 ==> 0.5 <= UprobOf(form, Num(n), exp) <= 1.0
  {
    if form == Intended {
      UprobRange(n, exp);
    } else if 1.9 <= Abs(n) <= 100.0 {
      assert 0.0 <= exp(Gaussian(Abs(n))) <= 1.0;
    }
  }
}
