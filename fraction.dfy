/** The exact rational number of Fraction.java: construction in lowest terms,
    Euclid's greatest common divisor, the least common multiple loop, and
    addition, negation and subtraction. */
module Fractions {
  import opened Exceptions
  import opened JavaInts

  /** The two fields of a Fraction object, before the class invariant. */
  datatype Rational = Rational(num: int, den: int)

  /** The invariant every Fraction object keeps: the denominator is positive
      and shares no factor with the numerator, so the sign is in the numerator. */
  predicate Valid(f: Rational)
  {
    f.den > 0 && FindGcd(Abs(f.num), f.den) == 1
  }

  /** A Fraction object: a rational in lowest terms. */
  type Fraction = f: Rational | Valid(f) witness Rational(0, 1)

  /** `f` stands for the rational `n / d` (compared by cross-multiplication). */
  predicate Denotes(f: Rational, n: int, d: int)
  {
    f.num * d == n * f.den
  }

  /** `Fraction.ZERO` and the no-argument constructor. */
  const ZERO: Fraction := Rational(0, 1)

  // ---------------------------------------------------------------------------
  // findGCD

  /** `findGCD`: Euclid's algorithm, recursing on `(n2, n1 % n2)`. */
  function FindGcd(n1: nat, n2: nat): (g: nat)
    ensures n1 > 0 || n2 > 0 ==> g > 0
    decreases n2
  {
    if n2 == 0 then n1 else FindGcd(n2, n1 % n2)
  }

  lemma {:induction false} GcdDividesBoth(a: nat, b: nat)
    requires a > 0 || b > 0
    ensures Divides(FindGcd(a, b), a) && Divides(FindGcd(a, b), b)
    decreases b
  {
    if b == 0 {
      DivModUnique(a, a, 1, 0);
      DivModUnique(0, a, 0, 0);
    } else {
      var g, q, r := FindGcd(a, b), a / b, a % b;
      assert g == FindGcd(b, r);
      GcdDividesBoth(b, r);
      DividesLinear(g, r, b, q);
      assert r + q * b == a;
    }
  }

  lemma {:induction false} GcdIsGreatest(a: nat, b: nat, k: int)
    requires Divides(k, a) && Divides(k, b)
    ensures Divides(k, FindGcd(a, b))
    decreases b
  {
    if b > 0 {
      var q, r := a / b, a % b;
      DividesLinear(k, a, b, -q);
      assert a + (-q) * b == r;
      GcdIsGreatest(b, r, k);
      assert FindGcd(a, b) == FindGcd(b, r);
    }
  }

  /** For non-negative arguments, not both zero, `findGCD` returns their greatest
      common divisor: it divides both, and every common divisor divides it. */
  lemma FindGcdIsGcd(a: nat, b: nat)
    requires a > 0 || b > 0
    ensures Divides(FindGcd(a, b), a) && Divides(FindGcd(a, b), b)
    ensures forall k :: Divides(k, a) && Divides(k, b) ==> Divides(k, FindGcd(a, b)) && k <= FindGcd(a, b)
  {
    GcdDividesBoth(a, b);
    forall k | Divides(k, a) && Divides(k, b)
      ensures Divides(k, FindGcd(a, b)) && k <= FindGcd(a, b)
    {
      GcdIsGreatest(a, b, k);
      DivisorBound(k, FindGcd(a, b));
    }
  }

  lemma GcdSymmetric(a: nat, b: nat)
    ensures FindGcd(a, b) == FindGcd(b, a)
  {
    if a < b {
      DivModUnique(a, b, 0, a);
    } else if b < a {
      DivModUnique(b, a, 0, b);
    }
  }

  /** Adding a multiple of `d` to `n` does not change the gcd with `d`. */
  lemma GcdShift(n: nat, d: nat, k: nat)
    requires d > 0
    ensures FindGcd(k * d + n, d) == FindGcd(n, d)
  {
    DivModUnique(k * d + n, d, k + n / d, n % d);
  }

  /** Scaling both arguments scales the gcd. */
  lemma {:induction false} GcdScale(a: nat, b: nat, c: nat)
    requires c > 0
    ensures FindGcd(a * c, b * c) == FindGcd(a, b) * c
    decreases b
  {
    if b > 0 {
      var q, r := a / b, a % b;
      assert a * c == q * (b * c) + r * c by {
        assert a == q * b + r;
      }
      assert r * c < b * c by { MulStrict(r, b, c); }
      DivModUnique(a * c, b * c, q, r * c);
      GcdScale(b, r, c);
    }
  }

  lemma MulStrict(r: nat, b: nat, c: nat)
    requires r < b && c > 0
    ensures r * c < b * c
  {
    assert b * c - r * c == (b - r) * c;
    MulMonotone(b - r, c);
  }

  /** Dividing both numbers by their gcd leaves numbers whose gcd is one. */
  lemma DivideByGcdIsReduced(a: nat, b: nat)
    requires b > 0
    ensures FindGcd(a / FindGcd(a, b), b / FindGcd(a, b)) == 1
  {
    var g := FindGcd(a, b);
    GcdDividesBoth(a, b);
    ExactDivision(g, a);
    ExactDivision(g, b);
    GcdScale(a / g, b / g, g);
    assert FindGcd(a / g, b / g) * g == g * 1;
  }

  /** Bezout: the gcd is an integer combination of the two numbers. */
  lemma {:induction false} Bezout(a: nat, b: nat) returns (x: int, y: int)
    ensures a * x + b * y == FindGcd(a, b)
    decreases b
  {
    if b == 0 {
      x, y := 1, 0;
    } else {
      var x', y' := Bezout(b, a % b);
      var q := a / b;
      x, y := y', x' - q * y';
      calc {
        a * x + b * y;
        a * y' + b * x' - b * q * y';
        b * x' + (a - q * b) * y';
        { assert a - q * b == a % b; }
        b * x' + (a % b) * y';
      }
    }
  }

  /** Euclid's lemma: a number coprime to `x` that divides `x * y` divides `y`. */
  lemma EuclidLemma(k: int, x: nat, y: int)
    requires k > 0 && FindGcd(x, k) == 1 && Divides(k, x * y)
    ensures Divides(k, y)
  {
    var s, t := Bezout(x, k);
    assert y == (x * y) * s + k * (y * t) by {
      assert y == (x * s + k * t) * y;
    }
    DividesMultiple(k, y * t);
    DividesLinear(k, k * (y * t), x * y, s);
  }

  lemma DividesNegation(k: int, x: int)
    requires Divides(k, x)
    ensures Divides(k, -x) && Divides(k, Abs(x))
  {
    DivModUnique(0, k, 0, 0);
    DividesLinear(k, 0, x, -1);
  }

  // ---------------------------------------------------------------------------
  // findLCM

  /** The least common multiple, `n1 * n2 / gcd(n1, n2)`, that `findLCM` returns. */
  function Lcm(n1: int, n2: int): (r: int)
    requires n1 > 0 && n2 > 0
    ensures r > 0 && Divides(n1, r) && Divides(n2, r)
  {
    var g := FindGcd(n1, n2);
    GcdDividesBoth(n1, n2);
    ExactDivision(g, n2);
    ExactDivision(g, n1);
    assert n1 * n2 / g == n1 * (n2 / g) by {
      DivModUnique(n1 * n2, g, n1 * (n2 / g), 0);
    }
    assert n1 * n2 / g == (n1 / g) * n2 by {
      DivModUnique(n1 * n2, g, (n1 / g) * n2, 0);
    }
    DividesMultiple(n1, n2 / g);
    DividesMultiple(n2, n1 / g);
    assert n2 / g > 0 by { DivisorBound(g, n2); }
    n1 * n2 / g
  }

  /** `Lcm` is the LEAST common multiple: it divides every common multiple. */
  lemma LcmDividesCommonMultiples(n1: int, n2: int, m: int)
    requires n1 > 0 && n2 > 0 && Divides(n1, m) && Divides(n2, m)
    ensures Divides(Lcm(n1, n2), m)
  {
    var g := FindGcd(n1, n2);
    var x, y := Bezout(n1, n2);
    var s, t := m / n1, m / n2;
    ExactDivision(n1, m);
    ExactDivision(n2, m);
    CombineMultiples(m, g, n1, n2, x, y, s, t);
    var l := Lcm(n1, n2);
    LcmTimesGcd(n1, n2);
    var c := x * t + y * s;
    assert m * g == (l * c) * g by {
      MulAssoc3(l, g, c);
    }
    MulCancel(m, l * c, g);
    DividesMultiple(l, c);
  }

  lemma CombineMultiples(m: int, g: int, n1: int, n2: int, x: int, y: int, s: int, t: int)
    requires g == n1 * x + n2 * y && m == s * n1 && m == t * n2
    ensures m * g == (n1 * n2) * (x * t + y * s)
  {
    assert m * g == (m * x) * n1 + (m * y) * n2;
    assert (m * x) * n1 == (n1 * n2) * (x * t) by {
      assert m * x == (t * n2) * x;
    }
    assert (m * y) * n2 == (n1 * n2) * (y * s) by {
      assert m * y == (s * n1) * y;
    }
  }

  lemma MulAssoc3(l: int, g: int, c: int)
    ensures (l * g) * c == (l * c) * g
  {
  }

  /** The lcm times the gcd is the product. */
  lemma LcmTimesGcd(n1: int, n2: int)
    requires n1 > 0 && n2 > 0
    ensures n1 * n2 == Lcm(n1, n2) * FindGcd(n1, n2)
  {
    var g := FindGcd(n1, n2);
    GcdDividesBoth(n1, n2);
    ExactDivision(g, n2);
    var k := n2 / g;
    assert n1 * n2 == (n1 * k) * g by {
      assert n2 == k * g;
    }
    DivModUnique(n1 * n2, g, n1 * k, 0);
  }

  lemma MulCancel(a: int, b: int, c: int)
    requires c > 0 && a * c == b * c
    ensures a == b
  {
    if a < b {
      MulStrictInt(a, b, c);
    } else if a > b {
      MulStrictInt(b, a, c);
    }
  }

  lemma MulStrictInt(a: int, b: int, c: int)
    requires a < b && c > 0
    ensures a * c < b * c
  {
    assert b * c - a * c == (b - a) * c;
    MulMonotone(b - a, c);
  }

  /** `findLCM`: the do-while loop that swaps the two numbers so that the larger
      comes first and replaces it by its remainder, until the remainder is zero;
      the last divisor is then the gcd, and the product divided by it the lcm. */
  method FindLcm(n1: int, n2: int) returns (lcm: int)
    requires n1 > 0 && n2 > 0
    ensures lcm == Lcm(n1, n2)
  {
    var product := n1 * n2;
    var a, b := n1, n2;
    while true
      invariant a > 0 && b > 0
      invariant FindGcd(a, b) == FindGcd(n1, n2)
      decreases a + b
    {
      if a < b {
        GcdSymmetric(a, b);
        a, b := b, a;
      }
      GcdSymmetric(a % b, b);
      a := a % b;
      if a == 0 {
        break;
      }
    }
    lcm := product / b;
  }

  // ---------------------------------------------------------------------------
  // construct and the constructors

  /** `construct(wholeNum, nominator, denominator)`: checks the arguments, sets the
      numerator to `wholeNum * denominator ± nominator` (the sign taken from the
      whole part) and divides numerator and denominator by the gcd of the
      nominator argument and the denominator. */
  function Construct(w: int, n: int, d: int): (r: Result<Fraction>)
    ensures r.Err? <==> d <= 0 || (w != 0 && n < 0)
    ensures r.Err? ==> r.error == IllegalArgumentException
    ensures r.Ok? && w >= 0 ==> Denotes(r.value, w * d + n, d)
    ensures r.Ok? && w < 0 ==> Denotes(r.value, w * d - n, d)
  {
    if d <= 0 then Err(IllegalArgumentException)
    else if w != 0 && n < 0 then Err(IllegalArgumentException)
    else
      var num := if w >= 0 then w * d + n else w * d - n;
      var den := Abs(d);
      var divisor := FindGcd(Abs(n), den);
      ReduceByGcd(w, n, d, num);
      Ok(Rational(Quot(num, divisor), Quot(den, divisor)))
  }

  /** `construct` as the constructor runs it: the checks, then `mNominator`
      assigned the unreduced numerator, the denominator made absolute, and both
      fields divided by the gcd of the nominator argument and the denominator. */
  method ConstructFields(wholeNum: int, nominator: int, denominator: int) returns (r: Result<Fraction>)
    ensures r == Construct(wholeNum, nominator, denominator)
  {
    if denominator <= 0 {
      return Err(IllegalArgumentException);
    }
    if wholeNum != 0 && nominator < 0 {
      return Err(IllegalArgumentException);
    }
    var mNominator;
    if wholeNum >= 0 {
      mNominator := wholeNum * denominator + nominator;
    } else {
      mNominator := wholeNum * denominator - nominator;
    }
    var den := Abs(denominator);
    var divisor := FindGcd(Abs(nominator), den);
    ReduceByGcd(wholeNum, nominator, denominator, mNominator);
    mNominator := Quot(mNominator, divisor);
    var mDenominator := Quot(den, divisor);
    r := Ok(Rational(mNominator, mDenominator));
  }

  /** The gcd of the original nominator and the denominator is the gcd of the
      combined numerator and the denominator, so dividing by it reduces fully
      and keeps the value. */
  lemma ReduceByGcd(w: int, n: int, d: int, num: int)
    requires d > 0 && (w == 0 || n >= 0)
    requires num == if w >= 0 then w * d + n else w * d - n
    ensures var g := FindGcd(Abs(n), d);
      g > 0 && Valid(Rational(Quot(num, g), Quot(d, g))) &&
      Denotes(Rational(Quot(num, g), Quot(d, g)), num, d)
  {
    var g := FindGcd(Abs(n), d);
    GcdOfCombined(w, n, d, num);
    GcdDividesBoth(Abs(num), d);
    QuotExact(num, g);
    QuotExact(d, g);
    DivideByGcdIsReduced(Abs(num), d);
    QuotKeepsValue(num, d, g, Quot(num, g), Quot(d, g));
  }

  lemma GcdOfCombined(w: int, n: int, d: int, num: int)
    requires d > 0 && (w == 0 || n >= 0)
    requires num == if w >= 0 then w * d + n else w * d - n
    ensures FindGcd(Abs(num), d) == FindGcd(Abs(n), d)
  {
    if w > 0 {
      GcdShift(n, d, w);
    } else if w < 0 {
      assert Abs(num) == (-w) * d + n;
      GcdShift(n, d, -w);
    }
  }

  /** Java's division by an exact divisor. */
  lemma QuotExact(a: int, g: int)
    requires Divides(g, Abs(a))
    ensures Quot(a, g) * g == a && Abs(Quot(a, g)) == Abs(a) / g
  {
    ExactDivision(g, Abs(a));
  }

  lemma QuotKeepsValue(num: int, d: int, g: int, x: int, q: int)
    requires x * g == num && q * g == d
    ensures Rational(x, q).num * d == num * Rational(x, q).den
  {
    calc {
      x * d;
      x * (q * g);
      (x * g) * q;
      num * q;
    }
  }

  /** `Fraction(int wholeNum)`: the whole number over one. */
  function FromWhole(w: int): (r: Fraction)
    ensures r.num == w && r.den == 1
  {
    assert FindGcd(Abs(w), 1) == 1 by {
      DivModUnique(Abs(w), 1, Abs(w), 0);
    }
    Rational(w, 1)
  }

  /** `Fraction(int nominator, int denominator)`. */
  function FromRatio(n: int, d: int): (r: Result<Fraction>)
    ensures r.Err? <==> d <= 0
    ensures r.Ok? ==> Denotes(r.value, n, d)
  {
    Construct(0, n, d)
  }

  // ---------------------------------------------------------------------------
  // canonical form

  /** `Denotes` is an equivalence on fractions: two fractions that stand for the
      same rational stand for each other. */
  lemma SameValue(x: Rational, y: Rational, n: int, d: int)
    requires x.den > 0 && y.den > 0 && d > 0
    requires Denotes(x, n, d) && Denotes(y, n, d)
    ensures Denotes(x, y.num, y.den)
  {
    assert (x.num * y.den) * d == (y.num * x.den) * d by {
      calc {
        (x.num * y.den) * d;
        (x.num * d) * y.den;
        (n * x.den) * y.den;
        (n * y.den) * x.den;
        (y.num * d) * x.den;
        (y.num * x.den) * d;
      }
    }
    MulCancel(x.num * y.den, y.num * x.den, d);
  }

  /** A rational number has exactly one representation in lowest terms with a
      positive denominator: two fractions of equal value are identical. */
  lemma CanonicalForm(a: Fraction, b: Fraction)
    requires Denotes(a, b.num, b.den)
    ensures a == b
  {
    // a.num * b.den == b.num * a.den
    DividesMultiple(a.den, b.num);
    assert Divides(a.den, Abs(a.num) * b.den) by {
      DividesNegation(a.den, a.num * b.den);
      assert Abs(a.num * b.den) == Abs(a.num) * b.den;
    }
    EuclidLemma(a.den, Abs(a.num), b.den);
    DividesMultiple(b.den, a.num);
    assert Divides(b.den, Abs(b.num) * a.den) by {
      DividesNegation(b.den, b.num * a.den);
      assert Abs(b.num * a.den) == Abs(b.num) * a.den;
    }
    EuclidLemma(b.den, Abs(b.num), a.den);
    DivisorBound(a.den, b.den);
    DivisorBound(b.den, a.den);
    MulCancel(a.num, b.num, a.den);
  }

  /** A pair already in lowest terms is constructed unchanged. */
  lemma FromRatioOfReduced(f: Fraction)
    ensures FromRatio(f.num, f.den) == Ok(f)
  {
    CanonicalForm(FromRatio(f.num, f.den).value, f);
  }

  // ---------------------------------------------------------------------------
  // arithmetic

  /** `plus`: over the lcm of the denominators when they differ, directly when
      they agree; the result is built by `new Fraction(nominator, denominator)`. */
  function Plus(a: Fraction, b: Fraction): (r: Fraction)
    ensures Denotes(r, a.num * b.den + b.num * a.den, a.den * b.den)
  {
    if a.den != b.den then
      var lcm := Lcm(a.den, b.den);
      var multThis := Quot(lcm, a.den);
      var multOther := Quot(lcm, b.den);
      var r := FromRatio(a.num * multThis + b.num * multOther, lcm).value;
      PlusOverLcm(a, b, r, lcm, multThis, multOther);
      r
    else
      var r := FromRatio(a.num + b.num, a.den).value;
      PlusOverCommon(a, b, r);
      r
  }

  lemma PlusOverLcm(a: Fraction, b: Fraction, r: Rational, l: int, ma: int, mb: int)
    requires l > 0 && Divides(a.den, l) && Divides(b.den, l)
    requires ma == Quot(l, a.den) && mb == Quot(l, b.den)
    requires Denotes(r, a.num * ma + b.num * mb, l)
    ensures Denotes(r, a.num * b.den + b.num * a.den, a.den * b.den)
  {
    ExactDivision(a.den, l);
    ExactDivision(b.den, l);
    var n := a.num * ma + b.num * mb;
    var s := a.num * b.den + b.num * a.den;
    CrossSum(a.num, b.num, a.den, b.den, ma, mb, l);
    DenotesRescaled(r, n, l, s, a.den * b.den);
  }

  lemma CrossSum(an: int, bn: int, ad: int, bd: int, ma: int, mb: int, l: int)
    requires l == ma * ad && l == mb * bd
    ensures (an * ma + bn * mb) * (ad * bd) == (an * bd + bn * ad) * l
  {
    assert (an * ma) * (ad * bd) == (an * bd) * l by {
      assert (an * ma) * (ad * bd) == (an * bd) * (ma * ad);
    }
    assert (bn * mb) * (ad * bd) == (bn * ad) * l by {
      assert (bn * mb) * (ad * bd) == (bn * ad) * (mb * bd);
    }
  }

  lemma PlusOverCommon(a: Fraction, b: Fraction, r: Rational)
    requires a.den == b.den
    requires Denotes(r, a.num + b.num, a.den)
    ensures Denotes(r, a.num * b.den + b.num * a.den, a.den * b.den)
  {
    var n, d := a.num + b.num, a.den;
    var s := a.num * b.den + b.num * a.den;
    assert s == n * d;
    assert n * (d * d) == (n * d) * d;
    DenotesRescaled(r, n, d, s, d * d);
  }

  /** If `r` stands for `n / l` and `n / l == s / p`, then `r` stands for `s / p`. */
  lemma DenotesRescaled(r: Rational, n: int, l: int, s: int, p: int)
    requires l > 0 && Denotes(r, n, l) && n * p == s * l
    ensures Denotes(r, s, p)
  {
    assert (r.num * p) * l == (s * r.den) * l by {
      calc {
        (r.num * p) * l;
        (r.num * l) * p;
        (n * r.den) * p;
        (n * p) * r.den;
        (s * l) * r.den;
        (s * r.den) * l;
      }
    }
    MulCancel(r.num * p, s * r.den, l);
  }

  /** `negate`: `new Fraction(-mNominator, mDenominator)`. */
  function Negate(a: Fraction): (r: Fraction)
    ensures r.num == -a.num && r.den == a.den
  {
    var r := FromRatio(-a.num, a.den).value;
    assert Valid(Rational(-a.num, a.den));
    CanonicalForm(r, Rational(-a.num, a.den));
    r
  }

  /** `minus`: `plus(other.negate())`. */
  function Minus(a: Fraction, b: Fraction): (r: Fraction)
    ensures r == Plus(a, Negate(b))
    ensures Denotes(r, a.num * b.den - b.num * a.den, a.den * b.den)
  {
    var nb := Negate(b);
    var r := Plus(a, nb);
    NegateTimes(b.num, a.den);
    DenotesSameNumerator(r, a.num * nb.den + nb.num * a.den, a.num * b.den - b.num * a.den, a.den * b.den);
    r
  }

  lemma NegateTimes(x: int, y: int)
    ensures (-x) * y == -(x * y)
  {
  }

  lemma DenotesSameNumerator(f: Rational, n1: int, n2: int, d: int)
    requires Denotes(f, n1, d) && n1 == n2
    ensures Denotes(f, n2, d)
  {
  }

  /** `plus(Integer)`: adds `new Fraction(integer)`. */
  function PlusWhole(a: Fraction, w: int): (r: Fraction)
    ensures Denotes(r, a.num + w * a.den, a.den)
  {
    var r := Plus(a, FromWhole(w));
    DenotesOverOne(r, a.num * 1 + w * a.den, a.den);
    r
  }

  /** `minus(Integer)`: subtracts `new Fraction(integer)`. */
  function MinusWhole(a: Fraction, w: int): (r: Fraction)
    ensures Denotes(r, a.num - w * a.den, a.den)
  {
    var r := Minus(a, FromWhole(w));
    DenotesOverOne(r, a.num * 1 - w * a.den, a.den);
    r
  }

  lemma DenotesOverOne(r: Rational, n: int, d: int)
    requires Denotes(r, n, d * 1)
    ensures Denotes(r, n, d)
  {
  }

  // ---------------------------------------------------------------------------
  // properties of the arithmetic

  /** Addition is commutative, down to the stored numerator and denominator. */
  lemma PlusCommutes(a: Fraction, b: Fraction)
    ensures Plus(a, b) == Plus(b, a)
  {
    var x, y := Plus(a, b), Plus(b, a);
    assert Denotes(y, a.num * b.den + b.num * a.den, a.den * b.den);
    SameValue(x, y, a.num * b.den + b.num * a.den, a.den * b.den);
    CanonicalForm(x, y);
  }

  /** A fraction plus its negation is zero, stored as 0/1. */
  lemma PlusNegateIsZero(a: Fraction)
    ensures Plus(a, Negate(a)) == ZERO
    ensures Minus(a, a) == ZERO
  {
    var r := Plus(a, Negate(a));
    assert Denotes(r, 0, a.den * a.den);
    assert r.num * (a.den * a.den) == 0;
    MulZero(r.num, a.den * a.den);
    CanonicalForm(r, ZERO);
  }

  /** Subtraction undoes addition. */
  lemma MinusUndoesPlus(a: Fraction, b: Fraction)
    ensures Minus(Plus(a, b), b) == a
  {
    var p := Plus(a, b);
    var m := Minus(p, b);
    SumMinusPart(a.num, a.den, b.num, b.den, p.num, p.den);
    SameValue(m, a, p.num * b.den - b.num * p.den, p.den * b.den);
    CanonicalForm(m, a);
  }

  /** If p = (an·bd + bn·ad)/(ad·bd), then p − bn/bd = an/ad, by cross-multiplication. */
  lemma SumMinusPart(an: int, ad: int, bn: int, bd: int, pn: int, pd: int)
    requires pn * (ad * bd) == (an * bd + bn * ad) * pd
    ensures an * (pd * bd) == (pn * bd - bn * pd) * ad
  {
    calc {
      (pn * bd - bn * pd) * ad;
      pn * (ad * bd) - bn * pd * ad;
      (an * bd + bn * ad) * pd - bn * pd * ad;
      an * (pd * bd);
    }
  }

  lemma MulZero(x: int, y: int)
    requires y > 0 && x * y == 0
    ensures x == 0
  {
    if x != 0 {
      MulCancel(x, 0, y);
    }
  }

  /** Zero is the identity of addition. */
  lemma PlusZero(a: Fraction)
    ensures Plus(a, ZERO) == a
  {
    var r := Plus(a, ZERO);
    SameValue(r, a, a.num, a.den);
    CanonicalForm(r, a);
  }
}
