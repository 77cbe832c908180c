/** Java's integer division and remainder, which truncate toward zero, and the
    facts about Dafny's Euclidean `/` and `%` that the rest of the model uses. */
module JavaInts {

  function Abs(x: int): (r: nat)
    ensures r == x || r == -x
  {
    if x < 0 then -x else x
  }

  /** Java `a / b`: the quotient rounded toward zero. */
  function Quot(a: int, b: int): int
    requires b != 0
  {
    if (a >= 0) == (b > 0) then Abs(a) / Abs(b) else -(Abs(a) / Abs(b))
  }

  /** Java `a % b`: the remainder that goes with `Quot`, with the sign of `a`. */
  function Rem(a: int, b: int): (r: int)
    requires b != 0
    ensures a == Quot(a, b) * b + r
  {
    a - Quot(a, b) * b
  }

  /** The quotient and remainder are determined by `a == q * b + r`, `0 <= r < b`. */
  lemma DivModUnique(a: int, b: int, q: int, r: int)
    requires b > 0 && 0 <= r < b && a == q * b + r
    ensures a / b == q && a % b == r
  {
    var q0, r0 := a / b, a % b;
    assert a == q0 * b + r0;
    if q0 > q {
      MulMonotone(q0 - q, b);
    } else if q0 < q {
      MulMonotone(q - q0, b);
    }
  }

  lemma MulMonotone(k: int, b: int)
    requires k >= 1 && b > 0
    ensures k * b >= b
  {
  }

  /** A non-negative dividend makes Java's and Dafny's division agree. */
  lemma QuotRemOfNonNegative(a: int, b: int)
    requires a >= 0 && b > 0
    ensures Quot(a, b) == a / b && Rem(a, b) == a % b
  {
  }

  /** A negative dividend: Java rounds toward zero, so the quotient is the negated
      quotient of |a| and the remainder the negated remainder of |a|. */
  lemma QuotRemOfNegative(a: int, b: int)
    requires a < 0 && b > 0
    ensures Quot(a, b) == -((-a) / b) && Rem(a, b) == -((-a) % b)
  {
  }

  /** With a positive divisor, the quotient and the remainder take the sign of the dividend. */
  lemma QuotRemSigns(a: int, b: int)
    requires b > 0
    ensures a >= 0 ==> Quot(a, b) >= 0 && Rem(a, b) >= 0
    ensures a < 0 ==> Quot(a, b) <= 0 && Rem(a, b) <= 0
  {
    if a >= 0 {
      QuotRemOfNonNegative(a, b);
      DivNonNegative(a, b);
    } else {
      QuotRemOfNegative(a, b);
      DivNonNegative(-a, b);
    }
  }

  lemma DivNonNegative(a: int, b: int)
    requires a >= 0 && b > 0
    ensures a / b >= 0 && a % b >= 0
  {
    var q := a / b;
    if q < 0 {
      MulNonPositive(q, b);
    }
  }

  /** Java's remainder of a non-negative number is zero exactly when |b| divides it. */
  lemma RemZeroIffDivides(a: int, b: int)
    requires a >= 0 && b != 0
    ensures (Rem(a, b) == 0) <==> (a % Abs(b) == 0)
  {
    var q := a / Abs(b);
    assert a == q * Abs(b) + a % Abs(b);
    if b > 0 {
      assert Quot(a, b) == q;
    } else {
      assert Quot(a, b) == -q;
      assert Rem(a, b) == a - (-q) * b;
      assert (-q) * b == q * Abs(b);
    }
  }

  lemma MulNonPositive(q: int, b: int)
    requires q <= 0 && b > 0
    ensures q * b <= 0
  {
  }

  /** `k` divides `x` (for a positive `k`). */
  predicate Divides(k: int, x: int)
  {
    k > 0 && x % k == 0
  }

  lemma DividesMultiple(k: int, m: int)
    requires k > 0
    ensures Divides(k, k * m)
  {
    DivModUnique(k * m, k, m, 0);
  }

  /** A divisor of `a` and `b` divides every `a + q * b`. */
  lemma DividesLinear(k: int, a: int, b: int, q: int)
    requires Divides(k, a) && Divides(k, b)
    ensures Divides(k, a + q * b)
  {
    var x, y := a / k, b / k;
    assert a == k * x;
    assert b == k * y;
    assert a + q * b == k * (x + q * y);
    DividesMultiple(k, x + q * y);
  }

  /** The quotient of an exact division, multiplied back, gives the dividend. */
  lemma ExactDivision(k: int, a: int)
    requires Divides(k, a)
    ensures a == (a / k) * k
  {
  }

  /** A positive multiple of a positive number is at least that number. */
  lemma DivisorBound(k: int, m: int)
    requires Divides(k, m) && m > 0
    ensures k <= m
  {
    var q := m / k;
    assert m == q * k;
    if q <= 0 {
      MulNonPositive(q, k);
    } else {
      MulMonotone(q, k);
    }
  }
}
