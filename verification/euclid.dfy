/** Greatest common divisor, the extended Euclidean algorithm, modular inverse
    and linear congruences (util.py). The source's `gcd` is modelled on
    non-negative arguments only. */
module Euclid {
  import opened Arith
  import opened Wrappers

  function Abs(x: int): nat
  {
    if x < 0 then -x else x
  }

  /** If d divides a and b, it divides a mod b. */
  lemma DividesMod(d: int, a: int, b: int)
    requires Divides(d, a) && Divides(d, b) && b > 0
    ensures Divides(d, a % b)
  {
    var ka, kb := a / d, b / d;
    assert a == ka * d && b == kb * d;
    var q := a / b;
    assert a % b == a - q * b;
    assert a % b == (ka - q * kb) * d;
    MultipleMod(ka - q * kb, d);
  }

  /** If d divides b and a mod b, it divides a. */
  lemma DividesFromMod(d: int, a: int, b: int)
    requires b > 0 && Divides(d, b) && Divides(d, a % b)
    ensures Divides(d, a)
  {
    var kb, kr := b / d, (a % b) / d;
    assert b == kb * d && a % b == kr * d;
    var q := a / b;
    assert a == q * b + a % b;
    assert a == (q * kb + kr) * d;
    MultipleMod(q * kb + kr, d);
  }

  lemma DividesSelf(n: int)
    requires n > 0
    ensures Divides(n, n) && Divides(n, 0)
  {
    MultipleMod(1, n);
    MultipleMod(0, n);
  }

  /** A positive multiple of d is at least d. */
  lemma DivisorAtMost(d: int, n: int)
    requires Divides(d, n) && n > 0
    ensures d <= n
  {
    var k := n / d;
    assert n == k * d;
    if k <= 0 {
      MulMonotone(0, k, d);
    } else {
      MulMonotone(k, 1, d);
    }
  }

  /** Divisibility is transitive. */
  lemma DividesTrans(d: int, e: int, n: int)
    requires Divides(d, e) && Divides(e, n)
    ensures Divides(d, n)
  {
    var k1, k2 := e / d, n / e;
    assert e == k1 * d && n == k2 * e;
    assert n == (k2 * k1) * d;
    MultipleMod(k2 * k1, d);
  }

  // ---------------------------------------------------------------------
  // gcd (util.py `gcd`)

  /** The source's `while b != 0: a, b = b, a % b` loop. */
  function GcdLoop(a: nat, b: nat): (g: nat)
    ensures a > 0 || b > 0 ==> g > 0 && Divides(g, a) && Divides(g, b)
    ensures a == 0 && b == 0 ==> g == 0
    decreases b
  {
    if b == 0 then
      (if a > 0 then DividesSelf(a); a else a)
    else
      var g := GcdLoop(b, a % b);
      DividesFromMod(g, a, b);
      g
  }

  /** Every common divisor divides the loop's result: it is the greatest. */
  lemma {:induction false} GcdLoopGreatest(a: nat, b: nat, d: int)
    requires Divides(d, a) && Divides(d, b)
    ensures Divides(d, GcdLoop(a, b))
    decreases b
  {
    if b > 0 {
      DividesMod(d, a, b);
      GcdLoopGreatest(b, a % b, d);
    }
  }

  /** util.py `gcd`: swap so the larger argument comes first, then loop. */
  function Gcd(a: nat, b: nat): (g: nat)
    ensures a > 0 || b > 0 ==> g > 0 && Divides(g, a) && Divides(g, b)
    ensures forall d :: Divides(d, a) && Divides(d, b) ==> Divides(d, g)
    ensures b == 0 ==> g == a
  {
    var g := if a < b then GcdLoop(b, a) else GcdLoop(a, b);
    assert forall d :: Divides(d, a) && Divides(d, b) ==> Divides(d, g) by {
      forall d | Divides(d, a) && Divides(d, b)
        ensures Divides(d, g)
      {
        if a < b { GcdLoopGreatest(b, a, d); } else { GcdLoopGreatest(a, b, d); }
      }
    }
    g
  }

  /** The initial swap makes gcd independent of argument order. */
  lemma GcdCommutes(a: nat, b: nat)
    ensures Gcd(a, b) == Gcd(b, a)
  {
  }

  /** Without the swap the loop reaches the same value: when a < b its
      first step exchanges the arguments. */
  lemma GcdIsLoop(a: nat, b: nat)
    ensures GcdLoop(a, b) == Gcd(a, b)
  {
    if a < b {
      ModOfSmall(a, b);
      assert GcdLoop(a, b) == GcdLoop(b, a % b) == GcdLoop(b, a);
    }
  }

  // ---------------------------------------------------------------------
  // extended Euclid (util.py `extended_euclidean_algorithm`)

  /** The triples `(remainder, x, y)` the source keeps in `u` and `v`. */
  datatype Triple = Triple(r: int, x: int, y: int)

  /** One run of the source's `while v[0] != 0` loop, from state (u, v).
      The requires are the loop invariant: both triples satisfy
      r == a*x + b*y, the x coefficients alternate in sign, and
      u.r*|v.x| + v.r*|u.x| == b, which bounds the coefficients. */
  function ExtendedEuclidLoop(a: nat, b: nat, u: Triple, v: Triple): (res: Triple)
    requires u.r >= 0 && v.r >= 0
    requires u.r == a * u.x + b * u.y && v.r == a * v.x + b * v.y
    requires u.x * v.x <= 0
    requires u.r * Abs(v.x) + v.r * Abs(u.x) == b
    requires u.r == 0 ==> v.x == 0
    requires b >= 1 ==> Abs(u.x) <= b
    ensures res.r == a * res.x + b * res.y
    ensures res.r == GcdLoop(u.r, v.r)
    ensures b >= 1 ==> Abs(res.x) <= b
    decreases v.r
  {
    if v.r == 0 then u
    else
      var q := u.r / v.r;
      var t := Triple(u.r % v.r, u.x - q * v.x, u.y - q * v.y);
      ExtendedEuclidStep(a, b, u, v, q, t);
      ExtendedEuclidLoop(a, b, v, t)
  }

  /** One iteration keeps the loop invariant. */
  lemma ExtendedEuclidStep(a: nat, b: nat, u: Triple, v: Triple, q: int, t: Triple)
    requires u.r >= 0 && v.r > 0
    requires u.r == a * u.x + b * u.y && v.r == a * v.x + b * v.y
    requires u.x * v.x <= 0
    requires u.r * Abs(v.x) + v.r * Abs(u.x) == b
    requires u.r == 0 ==> v.x == 0
    requires q == u.r / v.r
    requires t == Triple(u.r % v.r, u.x - q * v.x, u.y - q * v.y)
    ensures t.r >= 0
    ensures t.r == a * t.x + b * t.y
    ensures v.x * t.x <= 0
    ensures v.r * Abs(t.x) + t.r * Abs(v.x) == b
    ensures b >= 1 ==> Abs(v.x) <= b
  {
    var ur, ux, uy, vr, vx, vy := u.r, u.x, u.y, v.r, v.x, v.y;
    assert t.r == ur - q * vr;
    assert q >= 0;
    BezoutStep(a, b, ur, ux, uy, vr, vx, vy, q);
    SignStep(ux, vx, q);
    BoundStep(ur, vr, Abs(ux), Abs(vx), q, b);
    CoefficientBound(ur, vr, Abs(ux), Abs(vx), b);
  }

  lemma CoefficientBound(ur: int, vr: int, aux: nat, avx: nat, b: int)
    requires ur >= 0 && vr >= 0 && ur * avx + vr * aux == b
    requires ur == 0 ==> avx == 0
    ensures b >= 1 ==> avx <= b
  {
    assert vr * aux >= 0;
    if ur >= 1 {
      MulMonotone(ur, 1, avx);
    }
  }

  lemma BezoutStep(a: int, b: int, ur: int, ux: int, uy: int, vr: int, vx: int, vy: int, q: int)
    requires ur == a * ux + b * uy && vr == a * vx + b * vy
    ensures ur - q * vr == a * (ux - q * vx) + b * (uy - q * vy)
  {
    assert q * vr == a * (q * vx) + b * (q * vy);
  }

  lemma SignStep(ux: int, vx: int, q: int)
    requires ux * vx <= 0 && q >= 0
    ensures vx * (ux - q * vx) <= 0
    ensures Abs(ux - q * vx) == Abs(ux) + q * Abs(vx)
  {
    assert vx * (ux - q * vx) == ux * vx - q * (vx * vx);
    assert q * (vx * vx) >= 0;
    SignOfProduct(ux, vx);
    if vx > 0 {
      assert q * vx >= 0;
    } else if vx < 0 {
      assert q * vx <= 0;
      assert q * Abs(vx) == -(q * vx);
    }
  }

  lemma BoundStep(ur: int, vr: int, aux: int, avx: int, q: int, b: int)
    requires ur * avx + vr * aux == b
    ensures vr * (aux + q * avx) + (ur - q * vr) * avx == b
  {
    assert vr * (aux + q * avx) == vr * aux + q * (vr * avx);
    assert (ur - q * vr) * avx == ur * avx - q * (vr * avx);
  }

  lemma SignOfProduct(x: int, y: int)
    requires x * y <= 0
    ensures y > 0 ==> x <= 0
    ensures y < 0 ==> x >= 0
  {
    if y > 0 && x > 0 {
      MulMonotone(x, 1, y);
    } else if y < 0 && x < 0 {
      MulMonotone(-x, 1, -y);
    }
  }

  /** util.py `extended_euclidean_algorithm(a, b)`: (gcd(a, b), x, y) with
      a*x + b*y == gcd(a, b); |x| <= b when b is positive. */
  function ExtendedEuclid(a: nat, b: nat): (res: Triple)
    ensures res.r == Gcd(a, b)
    ensures a * res.x + b * res.y == res.r
    ensures b >= 1 ==> Abs(res.x) <= b
  {
    GcdIsLoop(a, b);
    ExtendedEuclidLoop(a, b, Triple(a, 1, 0), Triple(b, 0, 1))
  }

  // ---------------------------------------------------------------------
  // modular inverse (util.py `get_multiplicative_inverse`)

  /** The value whose gcd with m the source checks: negative a is first
      reduced mod m, non-negative a is left as it is. */
  function Reduced(a: int, m: int): nat
    requires m >= 1
  {
    if a < 0 then a % m else a
  }

  /** util.py `get_multiplicative_inverse(a, m)`. `None` stands for the
      source's failed coprimality assertion; a == 0 yields 0. */
  function ModInverse(a: int, m: int): (r: Option<int>)
    requires m >= 1
    ensures r.Some? <==> a == 0 || Gcd(Reduced(a, m), m) == 1
    ensures a == 0 ==> r == Some(0)
    ensures a != 0 && r.Some? ==> (a * r.value) % m == 1 % m
    ensures r.Some? ==> 0 <= r.value <= m && (m >= 2 ==> r.value < m)
  {
    if a == 0 then Some(0)
    else
      var a' := Reduced(a, m);
      if Gcd(a', m) != 1 then None
      else
        var t := ExtendedEuclid(a', m);
        var x := if t.x < 0 then t.x + m else t.x;
        InverseCongruence(a, a', m, t, x);
        Some(x)
  }

  lemma InverseCongruence(a: int, a': nat, m: int, t: Triple, x: int)
    requires m >= 1 && a != 0 && a' == Reduced(a, m)
    requires a' * t.x + m * t.y == 1 && Abs(t.x) <= m
    requires x == (if t.x < 0 then t.x + m else t.x)
    ensures (a * x) % m == 1 % m
    ensures 0 <= x <= m && (m >= 2 ==> x < m)
  {
    // a' * x == 1 (mod m)
    if t.x < 0 {
      assert a' * x == (a' - t.y) * m + 1;
      ModAddMultiple(a' - t.y, m, 1);
    } else {
      assert a' * x == (-t.y) * m + 1;
      ModAddMultiple(-t.y, m, 1);
    }
    // a == a' (mod m)
    if a < 0 {
      ModMulLeft(a, x, m);
    }
    if m >= 2 && x == m {
      MultipleMod(a, m);
      ModOfSmall(1, m);
    }
  }

  /** util.py `solve_modular_inverse_equation(a, b, p)`: the x in [0, p)
      with a*x == b (mod p). */
  function SolveModularInverseEquation(a: nat, b: int, p: int): (x: int)
    requires p >= 1 && Gcd(a, p) == 1
    ensures 0 <= x < p
    ensures (a * x) % p == b % p
  {
    var inv := ModInverse(a, p).value;
    var x := b * inv % p;
    SolveCongruence(a, b, p, inv, x);
    x
  }

  lemma SolveCongruence(a: nat, b: int, p: int, inv: int, x: int)
    requires p >= 1 && Gcd(a, p) == 1
    requires ModInverse(a, p) == Some(inv) && x == b * inv % p
    ensures (a * x) % p == b % p
  {
    if a == 0 {
      assert p == 1;
    } else {
      assert (a * inv) % p == 1 % p;
      MulInverseSolves(a, b, p, inv);
    }
  }

  lemma MulInverseSolves(a: int, b: int, p: int, inv: int)
    requires p >= 1 && (a * inv) % p == 1 % p
    ensures (a * (b * inv % p)) % p == b % p
  {
    var ai := a * inv;
    ModMul(a, b * inv, p);
    assert a * (b * inv) == b * ai;
    ModMul(b, ai, p);
    ModMul(b, 1, p);
  }

  /** The solution is unique in [0, p): multiplying a*y == b by the inverse
      of a pins y down. */
  lemma SolveIsUnique(a: nat, b: int, p: int, y: int)
    requires p >= 1 && Gcd(a, p) == 1
    requires 0 <= y < p && (a * y) % p == b % p
    ensures y == SolveModularInverseEquation(a, b, p)
  {
    var x := SolveModularInverseEquation(a, b, p);
    if a == 0 {
      assert p == 1;
    } else {
      var inv := ModInverse(a, p).value;
      assert (a * inv) % p == 1 % p;
      CancelByInverse(a, inv, p, x);
      CancelByInverse(a, inv, p, y);
      assert (inv * (a * x)) % p == (inv * (a * y)) % p by {
        ModMul(inv, a * x, p);
        ModMul(inv, a * y, p);
      }
      ModOfSmall(x, p);
      ModOfSmall(y, p);
    }
  }

  /** inv * (a * z) == z (mod p) when a * inv == 1 (mod p). */
  lemma CancelByInverse(a: int, inv: int, p: int, z: int)
    requires p >= 1 && (a * inv) % p == 1 % p
    ensures (inv * (a * z)) % p == z % p
  {
    calc {
      (inv * (a * z)) % p;
      { assert inv * (a * z) == (a * inv) * z; }
      ((a * inv) * z) % p;
      { ModMulLeft(a * inv, z, p); }
      ((a * inv) % p * z) % p;
      ((1 % p) * z) % p;
      { ModMulLeft(1, z, p); }
      z % p;
    }
  }
}
