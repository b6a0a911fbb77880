/** Greatest common divisor and least common multiple, as used by the Custom
    variant to name a hybrid species (game.h:291-303). */
module Euclid {

  /** Euclid's recurrence; the reference the engine's loop is checked against. */
  function Gcd(a: nat, b: nat): nat
    decreases b
  {
    if b == 0 then a else Gcd(b, a % b)
  }

  /** The least common multiple as the engine computes it: the product divided
      by the greatest common divisor. */
  function Lcm(m: int, n: int): (r: int)
    requires m > 0 && n > 0
    ensures r > 0 && r % m == 0 && r % n == 0
  {
    LcmFacts(m, n);
    m * n / Gcd(m, n)
  }

  /** The engine's loop: swap so that the larger operand comes first, reduce it
      modulo the smaller, stop when the smaller is zero; the survivor is the
      gcd (never zero for positive operands) and the result is the product
      divided by it. */
  method LcmLoop(m: int, n: int) returns (r: int)
    requires m > 0 && n > 0
    ensures r == Lcm(m, n)
    ensures r > 0 && r % m == 0 && r % n == 0
  {
    var a, b := m, n;
    while b != 0
      invariant a >= 0 && b >= 0
      invariant Gcd(a, b) == Gcd(m, n)
      decreases b, a
    {
      if a < b {
        ModSmall(a, b);
        assert Gcd(a, b) == Gcd(b, a);
        a, b := b, a;
      }
      if b != 0 {
        ModSmall(a % b, b);
        assert Gcd(a % b, b) == Gcd(b, a % b);
        a := a % b;
      }
    }
    var gcd := a;
    LcmFacts(m, n);
    r := m * n / gcd;
  }

  /** The gcd of two numbers, not both zero, is positive and divides both. */
  lemma {:induction false} GcdDivides(a: nat, b: nat)
    requires a > 0 || b > 0
    ensures Gcd(a, b) > 0
    ensures a % Gcd(a, b) == 0 && b % Gcd(a, b) == 0
    decreases b
  {
    if b != 0 {
      GcdDivides(b, a % b);
      DividesStep(a, b, Gcd(b, a % b));
    }
  }

  lemma LcmFacts(m: int, n: int)
    requires m > 0 && n > 0
    ensures Gcd(m, n) > 0
    ensures var r := m * n / Gcd(m, n); r > 0 && r % m == 0 && r % n == 0
  {
    GcdDivides(m, n);
    var g := Gcd(m, n);
    var qm, qn := m / g, n / g;
    ModZero(m, g);
    ModZero(n, g);
    Regroup(m, n, g, qm, qn);
    Exact(m * n, g, m * qn);
    assert qn > 0;
    Exact(m * qn, m, qn);
    Exact(m * qn, n, qm);
  }

  // Small steps of integer arithmetic, kept apart so that each proof
  // obligation carries only a few nonlinear terms.

  lemma MulAtLeast(d: int, g: int)
    requires d >= 1 && g > 0
    ensures d * g >= g
  {
  }

  /** Euclidean division is unique: a quotient and an in-range remainder that
      rebuild `x` are the ones `/` and `%` give. */
  lemma DivModUnique(x: int, g: int, q: int, r: int)
    requires g > 0 && 0 <= r < g && x == q * g + r
    ensures x / g == q && x % g == r
  {
    var q', r' := x / g, x % g;
    assert (q - q') * g == r' - r;
    if q - q' >= 1 {
      MulAtLeast(q - q', g);
      assert false;
    } else if q' - q >= 1 {
      MulAtLeast(q' - q, g);
      assert false;
    }
  }

  lemma ModSmall(x: int, g: int)
    requires 0 <= x < g
    ensures x % g == x
  {
    DivModUnique(x, g, 0, x);
  }

  lemma ModZero(x: int, g: int)
    requires g > 0 && x % g == 0
    ensures x == (x / g) * g
  {
  }

  lemma Exact(x: int, g: int, q: int)
    requires g > 0 && x == q * g
    ensures x / g == q && x % g == 0
  {
    DivModUnique(x, g, q, 0);
  }

  lemma Combine(a: int, b: int, r: int, q: int, qb: int, qr: int, g: int)
    requires a == q * b + r && b == qb * g && r == qr * g
    ensures a == (q * qb + qr) * g
  {
    calc {
      a;
      q * b + r;
      q * (qb * g) + qr * g;
      (q * qb + qr) * g;
    }
  }

  lemma Regroup(m: int, n: int, g: int, qm: int, qn: int)
    requires m == qm * g && n == qn * g
    ensures m * n == (m * qn) * g && m * qn == qm * n
  {
    calc {
      m * n;
      m * (qn * g);
      (m * qn) * g;
    }
    calc {
      m * qn;
      (qm * g) * qn;
      qm * (qn * g);
      qm * n;
    }
  }

  /** A common divisor of `b` and of `a % b` divides `a`. */
  lemma DividesStep(a: int, b: int, g: int)
    requires b > 0 && g > 0 && b % g == 0 && (a % b) % g == 0
    ensures a % g == 0
  {
    var r := a % b;
    ModZero(b, g);
    ModZero(r, g);
    Combine(a, b, r, a / b, b / g, r / g, g);
    DivModUnique(a, g, (a / b) * (b / g) + r / g, 0);
  }
}
