/** The field side of elliptic_curve_cryptosystem.py: the singularity test,
    the split p - 1 = 2^s * t, the Jacobi symbol, the right-hand side
    x^3 + a*x + b mod p, the square roots of that value and the membership
    test built from them. */
module EllipticCurve {
  import opened Arith
  import opened Wrappers
  import opened Euclid
  import opened Primes
  import opened ModExp

  /** The curve y^2 = x^3 + a*x + b over Z_p. */
  datatype Curve = Curve(a: int, b: int, p: int)

  /** A point: affine coordinates, or the point at infinity, which the
      source writes as `None` in `add_two_point` and `(inf, inf)` elsewhere. */
  datatype Point = Affine(x: int, y: int) | Infinity

  // ---------------------------------------------------------------------
  // is_singular

  /** `is_singular(a, b)`: the discriminant 4a^3 + 27b^2 vanishes over the
      integers. The test does not involve p. */
  predicate IsSingular(a: int, b: int)
    ensures IsSingular(a, b) ==> a <= 0 && (a == 0 <==> b == 0)
  {
    DiscriminantSigns(a, b);
    4 * Pow(a, 3) + 27 * Pow(b, 2) == 0
  }

  /** The test is over the integers: y^2 = x^3 - 3x + 2 is singular, the
      course curve (2, 9) is not, and neither is (0, 23), although its
      discriminant vanishes modulo 23. */
  lemma SingularExamples()
    ensures IsSingular(-3, 2)
    ensures !IsSingular(2, 9)
    ensures !IsSingular(0, 23) && (4 * Pow(0, 3) + 27 * Pow(23, 2)) % 23 == 0
  {
    SmallPowers(-3);
    SmallPowers(2);
    SmallPowers(9);
    SmallPowers(0);
    SmallPowers(23);
  }

  /** The small powers the discriminant and the cubic use. */
  lemma SmallPowers(x: int)
    ensures Pow(x, 2) == x * x && Pow(x, 3) == x * (x * x)
  {
    assert Pow(x, 1) == x;
    assert Pow(x, 2) == x * Pow(x, 1);
  }

  /** A vanishing discriminant forces a <= 0, and a and b vanish together. */
  lemma DiscriminantSigns(a: int, b: int)
    ensures 4 * Pow(a, 3) + 27 * Pow(b, 2) == 0 ==> a <= 0 && (a == 0 <==> b == 0)
  {
    SmallPowers(a);
    SmallPowers(b);
    assert b * b >= 0;
    assert a * a >= 0;
    if a > 0 {
      MulMonotone(a * a, 1, a);
      assert a * (a * a) > 0;
    }
    if b != 0 {
      assert b * b > 0;
    }
    if a < 0 {
      assert a * a > 0;
      assert a * (a * a) < 0;
    }
  }

  /** The cubic x^3 + a*x + b and its derivative 3x^2 + a share the root
      t: t is a double root. */
  predicate DoubleRoot(a: int, b: int, t: int)
  {
    t * (t * t) + a * t + b == 0 && 3 * (t * t) + a == 0
  }

  /** An integer double root t makes the equation singular, and then the
      cubic is (x - t)^2 * (x + 2t), the repeated root the docstring names. */
  lemma DoubleRootSingular(a: int, b: int, t: int, x: int)
    requires DoubleRoot(a, b, t)
    ensures IsSingular(a, b)
    ensures Pow(x, 3) + a * x + b == (x - t) * (x - t) * (x + 2 * t)
  {
    SmallPowers(t);
    var t2 := t * t;
    var t3 := t * t2;
    assert a == -3 * t2;
    assert b == 2 * t3;
    DoubleRootDiscriminant(t);
    SmallPowers(x);
    CubicFactors(t, x);
  }

  /** The discriminant of x^3 - 3t^2 x + 2t^3 vanishes. */
  lemma DoubleRootDiscriminant(t: int)
    ensures IsSingular(-3 * (t * t), 2 * (t * (t * t)))
  {
    var t2 := t * t;
    var a, b := -3 * t2, 2 * (t * t2);
    SmallPowers(a);
    SmallPowers(b);
    assert a * (a * a) == -27 * (t2 * (t2 * t2));
    assert b * b == 4 * ((t * t2) * (t * t2));
    assert (t * t2) * (t * t2) == t2 * (t2 * t2);
  }

  /** x^3 - 3t^2 x + 2t^3 = (x - t)^2 * (x + 2t). */
  lemma CubicFactors(t: int, x: int)
    ensures x * (x * x) - 3 * (t * t) * x + 2 * (t * (t * t)) == (x - t) * (x - t) * (x + 2 * t)
  {
    var sq := x * x - 2 * t * x + t * t;
    assert (x - t) * (x - t) == sq;
    assert sq * (x + 2 * t) == x * (x * x) - 3 * (t * t) * x + 2 * (t * (t * t));
  }

  /** Conversely, a singular equation has the double root t = -3b / (2a),
      stated over the common denominator 2a: the cubic and its derivative,
      multiplied out by powers of 2a, both vanish at -3b. (For a = b = 0
      the cubic is x^3, with the triple root 0.) */
  lemma SingularDoubleRoot(a: int, b: int)
    requires IsSingular(a, b)
    ensures var u, w := -3 * b, 2 * a;
      u * u * u + a * u * (w * w) + b * (w * w * w) == 0
      && 3 * (u * u) + a * (w * w) == 0
  {
    SmallPowers(a);
    SmallPowers(b);
    var a2, b2 := a * a, b * b;
    var a3, b3 := a * a2, b * b2;
    assert 4 * a3 + 27 * b2 == 0;
    var u, w := -3 * b, 2 * a;
    assert u * u == 9 * b2;
    assert u * u * u == -27 * b3;
    assert w * w == 4 * a2;
    assert w * w * w == 8 * a3;
    assert a * u * (w * w) == -12 * (b * a3);
    assert b * (w * w * w) == 8 * (b * a3);
    assert b3 == b * b2;
    assert -27 * b3 - 4 * (b * a3) == -b * (4 * a3 + 27 * b2);
  }

  // ---------------------------------------------------------------------
  // decompose_integer_by_two

  /** `decompose_integer_by_two(a)`: (s, t) with a == 2^s * t and t odd,
      by repeated halving. The source loops forever on 0; a negative a
      ends like a positive one because Python's `//` floors. */
  function DecomposeByTwo(a: int): (st: (nat, int))
    requires a != 0
    ensures a == Pow(2, st.0) * st.1
    ensures st.1 % 2 == 1
    ensures a > 0 ==> 0 < st.1 <= a
    decreases Abs(a)
  {
    if a % 2 != 0 then (0, a)
    else
      var h := a / 2;
      HalfSmaller(a, h);
      var rest := DecomposeByTwo(h);
      DoublePower(h, rest.0, rest.1);
      (rest.0 + 1, rest.1)
  }

  lemma HalfSmaller(a: int, h: int)
    requires a != 0 && a % 2 == 0 && h == a / 2
    ensures a == 2 * h && h != 0 && Abs(h) < Abs(a)
    ensures a > 0 ==> 0 < h < a
  {
  }

  lemma DoublePower(h: int, s: nat, t: int)
    requires h == Pow(2, s) * t
    ensures 2 * h == Pow(2, s + 1) * t
  {
    assert Pow(2, s + 1) == 2 * Pow(2, s);
  }

  /** The split is the only one: any a == 2^s * t with t odd is what the
      halving loop returns. */
  lemma {:induction false} DecomposeUnique(a: int, s: nat, t: int)
    requires a != 0 && a == Pow(2, s) * t && t % 2 == 1
    ensures DecomposeByTwo(a) == (s, t)
    decreases s
  {
    if s > 0 {
      var m := Pow(2, s - 1) * t;
      assert a == 2 * m;
      assert a % 2 == 0 && a / 2 == m;
      DecomposeUnique(m, s - 1, t);
    } else {
      assert a == t;
    }
  }

  // ---------------------------------------------------------------------
  // legendre_symbol

  /** `legendre_symbol(a, n)`: the Jacobi symbol by the steps of Algorithm
      2.149 of the Handbook of Applied Cryptography. The source asserts n
      odd and at least 3; a is a reduced residue, so non-negative. Since n is
      odd, n mod 8 is one of 1, 3, 5, 7, and the second branch of step 4
      covers 3 and 5. */
  function Legendre(a: int, n: int): (r: int)
    requires n % 2 == 1 && n >= 3 && a >= 0
    ensures -1 <= r <= 1
    ensures a == 0 ==> r == 0
    ensures a == 1 ==> r == 1
    decreases a
  {
    if a == 0 then 0
    else if a == 1 then 1
    else
      var (e, a1) := DecomposeByTwo(a);
      var s := if e % 2 == 0 then 1 else if n % 8 == 1 || n % 8 == 7 then 1 else -1;
      var s' := if n % 4 == 3 && a1 % 4 == 3 then -s else s;
      var n1 := n % a1;
      if a1 == 1 then s' else s' * Legendre(n1, a1)
  }

  /** d divides both x and y. */
  predicate CommonDivisor(d: int, x: int, y: int)
  {
    Divides(d, x) && Divides(d, y)
  }

  /** Two numbers, not both zero, are coprime exactly when they share no
      divisor above 1. */
  lemma CoprimeIff(x: nat, y: nat)
    requires x > 0 || y > 0
    ensures Gcd(x, y) == 1 <==> forall d :: d > 1 ==> !CommonDivisor(d, x, y)
  {
    var g := Gcd(x, y);
    if g != 1 {
      assert g > 1 && CommonDivisor(g, x, y);
    } else {
      forall d | d > 1 && CommonDivisor(d, x, y)
        ensures false
      {
        DivisorAtMost(d, 1);
      }
    }
  }

  /** An odd divisor of 2m divides m. */
  lemma OddDividesHalf(d: int, m: int)
    requires d % 2 == 1 && Divides(d, 2 * m)
    ensures Divides(d, m)
  {
    var k := (2 * m) / d;
    assert 2 * m == k * d;
    var i := d / 2;
    assert d == 2 * i + 1;
    if k % 2 == 1 {
      var j := k / 2;
      assert k * d == 2 * (j * d + i) + 1;
      ModAddMultiple(j * d + i, 2, 1);
      MultipleMod(m, 2);
    }
    var j := k / 2;
    assert k == 2 * j;
    assert m == j * d;
    MultipleMod(j, d);
  }

  /** An odd divisor of 2^e * t divides t. */
  lemma {:induction false} OddDividesPowerMultiple(d: int, e: nat, t: int)
    requires d % 2 == 1 && Divides(d, Pow(2, e) * t)
    ensures Divides(d, t)
    decreases e
  {
    if e > 0 {
      assert Pow(2, e) * t == 2 * (Pow(2, e - 1) * t);
      OddDividesHalf(d, Pow(2, e - 1) * t);
      OddDividesPowerMultiple(d, e - 1, t);
    }
  }

  /** A divisor of an odd number is odd. */
  lemma DivisorOfOdd(d: int, n: int)
    requires n % 2 == 1 && Divides(d, n)
    ensures d % 2 == 1
  {
    var k := n / d;
    assert n == k * d;
    if d % 2 == 0 {
      assert n == 2 * (k * (d / 2));
      MultipleMod(k * (d / 2), 2);
    }
  }

  /** A divisor of t divides every multiple of t. */
  lemma DividesMultiple(d: int, c: int, t: int)
    requires Divides(d, t)
    ensures Divides(d, c * t)
  {
    var k := t / d;
    assert t == k * d;
    assert c * t == (c * k) * d;
    MultipleMod(c * k, d);
  }

  /** Removing factors of two from a does not change its gcd with odd n. */
  lemma OddPartCoprime(a: nat, e: nat, a1: nat, n: nat)
    requires a > 0 && a == Pow(2, e) * a1 && n % 2 == 1
    ensures Gcd(a, n) == 1 <==> Gcd(a1, n) == 1
  {
    CoprimeIff(a, n);
    CoprimeIff(a1, n);
    forall d | d > 1
      ensures CommonDivisor(d, a, n) <==> CommonDivisor(d, a1, n)
    {
      if CommonDivisor(d, a, n) {
        DivisorOfOdd(d, n);
        OddDividesPowerMultiple(d, e, a1);
      }
      if CommonDivisor(d, a1, n) {
        DividesMultiple(d, Pow(2, e), a1);
      }
    }
  }

  /** The Euclidean step n -> n mod a1 keeps coprimality. */
  lemma ModStepCoprime(a1: nat, n: nat)
    requires a1 > 0
    ensures Gcd(a1, n) == 1 <==> Gcd(n % a1, a1) == 1
  {
    CoprimeIff(a1, n);
    CoprimeIff(n % a1, a1);
    forall d | d > 1
      ensures CommonDivisor(d, a1, n) <==> CommonDivisor(d, n % a1, a1)
    {
      if CommonDivisor(d, a1, n) {
        DividesMod(d, n, a1);
      }
      if CommonDivisor(d, n % a1, a1) {
        DividesFromMod(d, n, a1);
      }
    }
  }

  /** The symbol is zero exactly when a and n share a factor. */
  lemma {:induction false} LegendreZeroIff(a: nat, n: nat)
    requires n % 2 == 1 && n >= 3
    ensures Legendre(a, n) == 0 <==> Gcd(a, n) != 1
    decreases a
  {
    if a == 0 {
      DividesSelf(n);
      DivisorAtMost(Gcd(a, n), n);
      DivisorAtMost(n, Gcd(a, n));
    } else if a == 1 {
      DivisorAtMost(Gcd(a, n), 1);
    } else {
      var (e, a1) := DecomposeByTwo(a);
      var s := if e % 2 == 0 then 1 else if n % 8 == 1 || n % 8 == 7 then 1 else -1;
      var s' := if n % 4 == 3 && a1 % 4 == 3 then -s else s;
      assert s' == 1 || s' == -1;
      OddPartCoprime(a, e, a1, n);
      if a1 == 1 {
        assert Legendre(a, n) == s';
        DivisorAtMost(Gcd(a1, n), 1);
      } else {
        assert Legendre(a, n) == s' * Legendre(n % a1, a1);
        ModStepCoprime(a1, n);
        LegendreZeroIff(n % a1, a1);
      }
    }
  }

  /** For a prime modulus the symbol is zero exactly on multiples of it. */
  lemma LegendreZeroModPrime(a: nat, p: nat)
    requires p % 2 == 1 && p >= 3 && TrulyPrime(p)
    ensures Legendre(a, p) == 0 <==> a % p == 0
  {
    LegendreZeroIff(a, p);
    if a % p == 0 {
      DividesSelf(p);
      var g := Gcd(a, p);
      DivisorAtMost(g, p);
      DivisorAtMost(p, g);
    } else {
      PrimeCoprime(a, p);
    }
  }

  // ---------------------------------------------------------------------
  // elliptic_curve_equation / computing_square_roots

  /** The moduli the square-root routine accepts: odd, passing `isprime`,
      and at least 3 as the symbol computation asserts. */
  predicate OddPrime(p: int)
  {
    p >= 3 && p % 2 == 1 && IsPrime(p)
  }

  /** An accepted modulus is a genuine prime. */
  lemma OddPrimeIsPrime(p: int)
    requires OddPrime(p)
    ensures TrulyPrime(p)
  {
  }

  /** `elliptic_curve_equation(a, b, p, x)`: x^3 + a*x + b reduced mod p. */
  function EquationValue(c: Curve, x: int): (v: int)
    requires c.p >= 1
    ensures 0 <= v < c.p
    ensures v == (Pow(x, 3) + c.a * x + c.b) % c.p
  {
    (Pow(x, 3) + c.a * x + c.b) % c.p
  }

  /** The right-hand side depends only on x modulo p, so the x in [0, p)
      cover every value it takes. */
  lemma EquationPeriodic(c: Curve, x: int)
    requires c.p >= 1
    ensures EquationValue(c, x % c.p) == EquationValue(c, x)
  {
    var p, x' := c.p, x % c.p;
    var cube, cube' := Pow(x, 3), Pow(x', 3);
    var lin, lin' := c.a * x, c.a * x';
    PowMod(x, 3, p);
    ModMul(c.a, x, p);
    ModAdd(cube', lin' + c.b, p);
    ModAdd(cube, lin' + c.b, p);
    assert (cube' + lin' + c.b) % p == (cube + lin' + c.b) % p;
    ModAdd(lin', cube + c.b, p);
    ModAdd(lin, cube + c.b, p);
    assert (cube + lin' + c.b) % p == (cube + lin + c.b) % p;
  }

  /** The odd part t of p - 1 = 2^s * t. */
  function OddPart(p: int): (t: nat)
    requires p >= 2
    ensures t % 2 == 1 && 0 < t <= p - 1
  {
    DecomposeByTwo(p - 1).1
  }

  /** The root the source returns first: v^((t+1)/2) mod p. */
  function PrincipalRoot(c: Curve, x: int): int
    requires c.p >= 2
  {
    Pow(EquationValue(c, x), (OddPart(c.p) + 1) / 2) % c.p
  }

  /** The refinement loop `for i in range(1, s)` of step 6, from step i.
      Its test `d % p == -1` compares a remainder in [0, p) with -1, so the
      root it carries is never changed, whatever c is. */
  function Refine(r: int, c: int, inv: int, s: nat, i: nat, p: int): (rc: (int, int))
    requires p >= 1
    ensures rc.0 == r
    decreases s - i
  {
    if i >= s then (r, c)
    else
      PowPositive(2, s - i - 1);
      var e: nat := Pow(2, s - i - 1);
      var d := Pow(r * r * inv, e) % p;
      var r1, c1 := r * c % p, c * c % p;
      var (r', c') := if d % p == -1 then (r1, c1) else (r, c);
      Refine(r', c', inv, s, i + 1, p)
  }

  /** Step 4's inverse exists for every residue modulo an accepted prime
      (0 being mapped to 0). */
  lemma ResidueInvertible(v: int, p: int)
    requires OddPrime(p) && 0 <= v < p
    ensures ModInverse(v, p).Some?
  {
    OddPrimeIsPrime(p);
    if v != 0 {
      PrimeCoprimeSmall(v, p);
    }
  }

  /** Steps 2 to 7 of the square-root routine for a residue v whose symbol
      is not -1: the pair (r, p - r) with r = v^((t+1)/2) mod p. */
  function RootPair(p: int, v: int, draw: int): (rs: (int, int))
    requires OddPrime(p) && 0 <= v < p
    ensures 0 <= rs.0 < p && rs.0 + rs.1 == p
    ensures rs.0 == Pow(v, (OddPart(p) + 1) / 2) % p
  {
    var st := DecomposeByTwo(p - 1);
    ResidueInvertible(v, p);
    var inv := ModInverse(v, p).value;
    var cc := Pow(draw, st.1) % p;
    var r := ModExpLeft(v, (st.1 + 1) / 2, p);
    var r' := Abs(Refine(r, cc, inv, st.0, 1, p).0);
    (r', p - r')
  }

  /** `computing_square_roots(a, b, p, x)` with `draw` standing for the
      random non-residue of step 2. `None` when the symbol of the
      right-hand side is -1, otherwise the pair (r, p - r). */
  function SquareRootsWith(c: Curve, x: int, draw: int): (roots: Option<(int, int)>)
    requires OddPrime(c.p)
    ensures roots.None? <==> Legendre(EquationValue(c, x), c.p) == -1
    ensures roots.Some? ==> 0 <= roots.value.0 < c.p && roots.value.0 + roots.value.1 == c.p
    ensures roots.Some? ==> roots.value.0 == PrincipalRoot(c, x)
  {
    var v := EquationValue(c, x);
    if Legendre(v, c.p) == -1 then None else Some(RootPair(c.p, v, draw))
  }

  // ---------------------------------------------------------------------
  // is_point_on_curve

  /** `is_point_on_curve(a, b, p, g)`: g's y is one of the two roots over
      g's x. Every exception the source swallows makes it false: a modulus
      that is not an odd prime, no root, or the point at infinity. The
      random draw cannot change the roots (SquareRootsWith), so any value
      stands in for it. */
  predicate IsPointOnCurve(c: Curve, g: Point)
    ensures IsPointOnCurve(c, g) ==> TrulyPrime(c.p) && g.Affine? && 0 <= g.y <= c.p
  {
    g.Affine? && OddPrime(c.p)
    && var roots := SquareRootsWith(c, g.x, 1);
    roots.Some? && (g.y == roots.value.0 || g.y == roots.value.1)
  }

  /** Membership in terms of the symbol and the principal root. */
  lemma OnCurveIff(c: Curve, x: int, y: int)
    ensures IsPointOnCurve(c, Affine(x, y)) <==>
      OddPrime(c.p) && Legendre(EquationValue(c, x), c.p) != -1
      && (y == PrincipalRoot(c, x) || y == c.p - PrincipalRoot(c, x))
  {
  }

  /** A point on the curve has 0 <= y <= p, and its mirror image (x, p - y)
      is on the curve too. */
  lemma OnCurveMirror(c: Curve, x: int, y: int)
    requires IsPointOnCurve(c, Affine(x, y))
    ensures 0 <= y <= c.p
    ensures IsPointOnCurve(c, Affine(x, c.p - y))
  {
    OnCurveIff(c, x, y);
    OnCurveIff(c, x, c.p - y);
  }

  /** The modulus of test.py passes `isprime`. */
  lemma TestModulus()
    ensures OddPrime(23)
  {
    assert NoDivisorFrom(23, 5);
  }

  /** 9 is a square modulo 23: by reciprocity (9/23) = (5/9) = (4/5) = 1. */
  lemma TestSymbol()
    ensures Legendre(9, 23) == 1
  {
    assert DecomposeByTwo(4) == (2, 1);
    assert Legendre(4, 5) == 1;
    assert Legendre(5, 9) == 1;
  }

  /** On the curve of test.py the right-hand side at x == 0 is 9, and the
      principal root is 9^6 mod 23 == 3. */
  lemma TestRoot()
    ensures EquationValue(Curve(2, 9, 23), 0) == 9
    ensures PrincipalRoot(Curve(2, 9, 23), 0) == 3
  {
    DecomposeUnique(22, 1, 11);
    assert OddPart(23) == 11;
    assert Pow(9, 6) == 531441;
  }

  /** On the curve of test.py, (0, 3) is a point. */
  lemma TestCurvePoint()
    ensures IsPointOnCurve(Curve(2, 9, 23), Affine(0, 3))
  {
    TestModulus();
    TestSymbol();
    TestRoot();
    OnCurveIff(Curve(2, 9, 23), 0, 3);
  }
}
