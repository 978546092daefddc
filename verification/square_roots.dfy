/** The square-root routine of elliptic_curve_cryptosystem.py next to
    Algorithm 3.36 of the Handbook of Applied Cryptography, which its
    docstring cites. As written, the refinement test `d % p == -1` compares
    a remainder in [0, p) with -1 and never fires, so for p == 1 (mod 4)
    the returned value need not be a square root. The algorithm as the
    Handbook states it tests d == p - 1 and squares c on every pass; that
    version is defined here and shown to return the square roots. */
module SquareRoots {
  import opened Arith
  import opened Euclid
  import opened Primes
  import opened EllipticCurve
  import opened CurveArithmetic
  import opened ModExp
  import opened Wrappers

  /** 2^k as an exponent. */
  function TwoTo(k: nat): (e: nat)
    ensures e == Pow(2, k) && e >= 1
  {
    PowPositive(2, k);
    Pow(2, k)
  }

  lemma TwoToAdd(k1: nat, k2: nat)
    ensures TwoTo(k1 + k2) == TwoTo(k1) * TwoTo(k2)
  {
    PowAdd(2, k1, k2);
  }

  // ---------------------------------------------------------------------
  // Arithmetic modulo a prime

  /** Congruent bases give congruent powers. */
  lemma PowCongruent(x: int, y: int, e: nat, p: int)
    requires p >= 1 && x % p == y % p
    ensures Pow(x, e) % p == Pow(y, e) % p
  {
    PowMod(x, e, p);
    PowMod(y, e, p);
  }

  /** A prime dividing u * w but not u divides w. */
  lemma CancelFactor(u: int, w: int, p: int)
    requires TrulyPrime(p) && u % p != 0 && (u * w) % p == 0
    ensures w % p == 0
  {
    InverseModPrime(u, p);
    var inv := ModInverse(u, p).value;
    ModOfSmall(1, p);
    CancelWithInverse(u, w, inv, p);
  }

  /** With u * inv == 1 (mod p), u * w == 0 forces w == 0 (mod p). */
  lemma CancelWithInverse(u: int, w: int, inv: int, p: int)
    requires p >= 1 && (u * inv) % p == 1 % p && (u * w) % p == 0
    ensures w % p == 0
  {
    var ui, uw := u * inv, u * w;
    assert w * ui == inv * uw;
    calc {
      w % p;
      { ModMul(w, 1, p); }
      (w * (1 % p)) % p;
      (w * (ui % p)) % p;
      { ModMul(w, ui, p); }
      (w * ui) % p;
      (inv * uw) % p;
      { ModMul(inv, uw, p); }
      (inv * (uw % p)) % p;
      (inv * 0) % p;
    }
  }

  /** Two distinct residues differ by a non-multiple of p. */
  lemma DistinctResidues(x: int, y: int, p: int)
    requires p >= 1 && 0 <= x < p && 0 <= y < p && x != y
    ensures (x - y) % p != 0
  {
    if x > y {
      ModOfSmall(x - y, p);
    } else {
      ModAddMultiple(1, p, x - y);
      ModOfSmall(p + (x - y), p);
    }
  }

  /** Modulo a prime, two residues with the same square are equal or
      opposite: p divides (x - y)(x + y), so it divides one factor. */
  lemma SquaresEqual(x: int, y: int, p: int)
    requires TrulyPrime(p) && 0 <= x < p && 0 <= y < p
    requires (x * x) % p == (y * y) % p
    ensures x == y || x + y == p
  {
    if x != y {
      DistinctResidues(x, y, p);
      CongruentIff(x * x, y * y, p);
      assert (x - y) * (x + y) == x * x - y * y;
      CancelFactor(x - y, x + y, p);
      if x + y < p {
        ModOfSmall(x + y, p);
      } else if x + y > p {
        ModAddMultiple(1, p, x + y - p);
        ModOfSmall(x + y - p, p);
      }
    }
  }

  /** The only square roots of 1 modulo a prime are 1 and p - 1. */
  lemma SquareRootsOfOne(d: int, p: int)
    requires TrulyPrime(p) && 0 <= d < p && (d * d) % p == 1
    ensures d == 1 || d == p - 1
  {
    ModOfSmall(1, p);
    SquaresEqual(d, 1, p);
  }

  /** (p - 1)^2 == 1 modulo p. */
  lemma MinusOneSquared(p: int)
    requires p >= 2
    ensures ((p - 1) * (p - 1)) % p == 1
  {
    assert (p - 1) * (p - 1) == (p - 2) * p + 1;
    ModAddMultiple(p - 2, p, 1);
    ModOfSmall(1, p);
  }

  /** r and p - r have the same square modulo p. */
  lemma OppositeSquare(r: int, p: int)
    requires p >= 1
    ensures ((p - r) * (p - r)) % p == (r * r) % p
  {
    assert (p - r) * (p - r) == (p - 2 * r) * p + r * r;
    ModAddMultiple(p - 2 * r, p, r * r);
  }

  // ---------------------------------------------------------------------
  // The corrected refinement loop

  /** Step 6 of Algorithm 3.36 from pass i: d = (r^2 * a^-1)^(2^(s-i-1))
      mod p; if d == -1 (mod p) then r := r * c mod p; then c := c^2 mod p. */
  function RefineCorrected(r: int, c: int, inv: int, s: nat, i: nat, p: int): (r': int)
    requires p >= 1
    ensures 0 <= r < p ==> 0 <= r' < p
    decreases s - i
  {
    if i >= s then r
    else
      var d := Pow(r * r * inv, TwoTo(s - i - 1)) % p;
      var r1 := if d == p - 1 then r * c % p else r;
      RefineCorrected(r1, c * c % p, inv, s, i + 1, p)
  }

  /** A root of 0 stays 0. */
  lemma {:induction false} RefineCorrectedZero(c: int, inv: int, s: nat, i: nat, p: int)
    requires p >= 1
    ensures RefineCorrected(0, c, inv, s, i, p) == 0
    decreases s - i
  {
    if i < s {
      RefineCorrectedZero(c * c % p, inv, s, i + 1, p);
    }
  }

  /** One pass keeps c == b^(t * 2^(i-1)) (mod p). */
  lemma SquareStep(b: int, c: int, t: nat, i: nat, p: int)
    requires p >= 1 && i >= 1
    requires c % p == Pow(b, t * TwoTo(i - 1)) % p
    ensures (c * c % p) % p == Pow(b, t * TwoTo(i)) % p
  {
    var e := t * TwoTo(i - 1);
    TwoToAdd(i - 1, 1);
    assert t * TwoTo(i) == e + e;
    PowAdd(b, e, e);
    ModMul(c, c, p);
    ModMul(Pow(b, e), Pow(b, e), p);
    ModOfMod(c * c, p);
  }

  /** After r := r * c, the base r^2 * a^-1 is multiplied by c^2. */
  lemma RootTimesC(r: int, c: int, inv: int, p: int)
    requires p >= 1
    ensures var r1 := r * c % p;
      (r1 * r1 * inv) % p == ((r * r * inv) * (c * c)) % p
  {
    var r1 := r * c % p;
    var rc := r * c;
    ModMul(rc, rc, p);
    ModMulLeft(r1 * r1, inv, p);
    ModMulLeft(rc * rc, inv, p);
    assert rc * rc * inv == (r * r * inv) * (c * c);
  }

  /** The exponents of pass i meet: t * 2^(i-1) * 2 * 2^(s-i-1) == t * 2^(s-1). */
  lemma ExponentMeet(t: nat, s: nat, i: nat)
    requires 1 <= i < s
    ensures (t * TwoTo(i - 1)) * (2 * TwoTo(s - i - 1)) == t * TwoTo(s - 1)
  {
    TwoToAdd(1, s - i - 1);
    TwoToAdd(i - 1, s - i);
    assert TwoTo(1) == 2;
    assert 2 * TwoTo(s - i - 1) == TwoTo(s - i);
    assert TwoTo(i - 1) * TwoTo(s - i) == TwoTo(s - 1);
  }

  /** With c == b^(t * 2^(i-1)), c^(2 * 2^(s-i-1)) is b^((p-1)/2) == -1. */
  lemma CPowerMinusOne(c: int, b: int, t: nat, s: nat, i: nat, p: int)
    requires p >= 2 && 1 <= i < s
    requires Pow(b, t * TwoTo(s - 1)) % p == p - 1
    requires c % p == Pow(b, t * TwoTo(i - 1)) % p
    ensures Pow(c * c, TwoTo(s - i - 1)) % p == p - 1
  {
    var e := TwoTo(s - i - 1);
    PowSquare(c, e);
    PowCongruent(c, Pow(b, t * TwoTo(i - 1)), 2 * e, p);
    PowMul(b, t * TwoTo(i - 1), 2 * e);
    ExponentMeet(t, s, i);
  }

  /** The pass taken when d == -1: the next exponent's test value is
      (-1) * b^((p-1)/2) == (-1) * (-1) == 1. */
  lemma FlipStep(r: int, c: int, inv: int, b: int, t: nat, s: nat, i: nat, p: int)
    requires p >= 2 && 1 <= i < s
    requires Pow(b, t * TwoTo(s - 1)) % p == p - 1
    requires c % p == Pow(b, t * TwoTo(i - 1)) % p
    requires Pow(r * r * inv, TwoTo(s - i - 1)) % p == p - 1
    ensures var r1 := r * c % p;
      Pow(r1 * r1 * inv, TwoTo(s - i - 1)) % p == 1
  {
    var e := TwoTo(s - i - 1);
    var q := r * r * inv;
    var r1 := r * c % p;
    RootTimesC(r, c, inv, p);
    PowCongruent(r1 * r1 * inv, q * (c * c), e, p);
    PowProduct(q, c * c, e);
    CPowerMinusOne(c, b, t, s, i, p);
    calc {
      Pow(q * (c * c), e) % p;
      (Pow(q, e) * Pow(c * c, e)) % p;
      { ModMul(Pow(q, e), Pow(c * c, e), p); }
      ((Pow(q, e) % p) * (Pow(c * c, e) % p)) % p;
      ((p - 1) * (p - 1)) % p;
      { MinusOneSquared(p); }
      1;
    }
  }

  /** After the last pass, (r^2 * a^-1)^1 == 1 means r^2 == a (mod p). */
  lemma LastPass(r: int, inv: int, v: int, p: int)
    requires p >= 1 && (v * inv) % p == 1
    requires Pow(r * r * inv, TwoTo(0)) % p == 1
    ensures (r * r) % p == v % p
  {
    var q := r * r * inv;
    assert Pow(q, 1) == q;
    calc {
      v % p;
      { ModMul(v, 1, p); ModOfSmall(1, p); }
      (v * (q % p)) % p;
      { ModMul(v, q, p); }
      (v * q) % p;
      { assert v * q == (r * r) * (v * inv); }
      ((r * r) * (v * inv)) % p;
      { ModMul(r * r, v * inv, p); }
      ((r * r) * 1) % p;
    }
  }

  /** The test value of a pass squares to the invariant's 1, so it is
      1 or -1 modulo a prime. */
  lemma HalfPass(q: int, e: nat, p: int)
    requires TrulyPrime(p) && Pow(q, 2 * e) % p == 1
    ensures Pow(q, e) % p == 1 || Pow(q, e) % p == p - 1
  {
    PowSquare(q, e);
    ModMul(Pow(q, e), Pow(q, e), p);
    SquareRootsOfOne(Pow(q, e) % p, p);
  }

  /** The loop invariant of Algorithm 3.36: with c == b^(t * 2^(i-1)) and
      (r^2 * a^-1)^(2^(s-i)) == 1, the loop ends with r^2 == a (mod p),
      provided b^((p-1)/2) == -1 (mod p). */
  lemma {:induction false} RefineCorrectedSquares(r: int, c: int, inv: int, v: int, b: int, t: nat, s: nat, i: nat, p: int)
    requires TrulyPrime(p) && 1 <= i <= s
    requires (v * inv) % p == 1
    requires Pow(b, t * TwoTo(s - 1)) % p == p - 1
    requires c % p == Pow(b, t * TwoTo(i - 1)) % p
    requires Pow(r * r * inv, TwoTo(s - i)) % p == 1
    ensures var r' := RefineCorrected(r, c, inv, s, i, p); (r' * r') % p == v % p
    decreases s - i
  {
    if i == s {
      LastPass(r, inv, v, p);
    } else {
      var e := TwoTo(s - i - 1);
      var q := r * r * inv;
      TwoToAdd(1, s - i - 1);
      assert TwoTo(1) == 2;
      HalfPass(q, e, p);
      SquareStep(b, c, t, i, p);
      if Pow(q, e) % p == p - 1 {
        FlipStep(r, c, inv, b, t, s, i, p);
        RefineCorrectedSquares(r * c % p, c * c % p, inv, v, b, t, s, i + 1, p);
      } else {
        RefineCorrectedSquares(r, c * c % p, inv, v, b, t, s, i + 1, p);
      }
    }
  }

  // ---------------------------------------------------------------------
  // The corrected root pair

  /** Steps 2 to 7 with the corrected step 6, for a residue v whose
      symbol is not -1 and a draw b standing for the non-residue. */
  function CorrectedRootPair(p: int, v: int, draw: int): (rs: (int, int))
    requires OddPrime(p) && 0 <= v < p
    ensures 0 <= rs.0 < p && rs.0 + rs.1 == p
  {
    var st := DecomposeByTwo(p - 1);
    ResidueInvertible(v, p);
    var inv := ModInverse(v, p).value;
    var cc := Pow(draw, st.1) % p;
    var r := ModExpLeft(v, (st.1 + 1) / 2, p);
    var r' := Abs(RefineCorrected(r, cc, inv, st.0, 1, p));
    (r', p - r')
  }

  /** The predecessor of an odd number is even. */
  lemma EvenBelowOdd(p: int)
    requires p % 2 == 1
    ensures (p - 1) % 2 == 0
  {
    assert p == 2 * (p / 2) + 1;
    DivModUnique(p - 1, 2, p / 2, 0);
  }

  /** An even n == 2^s * t with t odd has s >= 1 and n / 2 == t * 2^(s-1). */
  lemma HalfOf(n: int, s: nat, t: int)
    requires n > 0 && n % 2 == 0 && t % 2 == 1 && n == Pow(2, s) * t
    ensures s >= 1 && n / 2 == t * TwoTo(s - 1)
  {
    assert s != 0 by {
      assert Pow(2, 0) == 1;
    }
    var g := TwoTo(s - 1);
    assert Pow(2, s) == 2 * g;
    assert n == 2 * (t * g);
    DivModUnique(n, 2, t * g, 0);
  }

  /** The first pass's invariant: with r = a^((t+1)/2), r^2 * a^-1 == a^t,
      and (a^t)^(2^(s-1)) == a^((p-1)/2) == 1 for a residue. */
  lemma StartInvariant(p: int, v: int, inv: int, t: nat, s: nat)
    requires p >= 2 && s >= 1 && t % 2 == 1
    requires (v * inv) % p == 1
    requires (p - 1) / 2 == t * TwoTo(s - 1)
    requires Pow(v, (p - 1) / 2) % p == 1
    ensures var r := Pow(v, (t + 1) / 2) % p;
      Pow(r * r * inv, TwoTo(s - 1)) % p == 1
  {
    var r := Pow(v, (t + 1) / 2) % p;
    StartBase(p, v, inv, t);
    PowCongruent(r * r * inv, Pow(v, t), TwoTo(s - 1), p);
    PowMul(v, t, TwoTo(s - 1));
  }

  /** r = a^((t+1)/2) mod p squares to a^(t+1), so r^2 * a^-1 == a^t. */
  lemma StartBase(p: int, v: int, inv: int, t: nat)
    requires p >= 2 && t % 2 == 1 && (v * inv) % p == 1
    ensures var r := Pow(v, (t + 1) / 2) % p;
      (r * r * inv) % p == Pow(v, t) % p
  {
    var r := Pow(v, (t + 1) / 2) % p;
    var w := Pow(v, t);
    HalfPowerSquare(p, v, t);
    calc {
      (r * r * inv) % p;
      { ModMulLeft(r * r, inv, p); }
      (((r * r) % p) * inv) % p;
      (((w * v) % p) * inv) % p;
      { ModMulLeft(w * v, inv, p); }
      (w * v * inv) % p;
      { assert w * v * inv == w * (v * inv); }
      (w * (v * inv)) % p;
      { ModMul(w, v * inv, p); }
      (w * 1) % p;
    }
  }

  /** For odd t, (a^((t+1)/2) mod p)^2 == a^t * a (mod p). */
  lemma HalfPowerSquare(p: int, v: int, t: nat)
    requires p >= 1 && t % 2 == 1
    ensures var r := Pow(v, (t + 1) / 2) % p;
      (r * r) % p == (Pow(v, t) * v) % p
  {
    var h := (t + 1) / 2;
    var r := Pow(v, h) % p;
    var ph := Pow(v, h);
    assert h + h == t + 1 by {
      assert t == 2 * (t / 2) + 1;
      DivModUnique(t + 1, 2, t / 2 + 1, 0);
    }
    PowAdd(v, h, h);
    PowAdd(v, t, 1);
    assert Pow(v, 1) == v;
    assert ph * ph == Pow(v, t) * v;
    calc {
      (r * r) % p;
      { ModMul(r, r, p); ModOfMod(ph, p); }
      ((ph % p) * (ph % p)) % p;
      { ModMul(ph, ph, p); }
      (ph * ph) % p;
    }
  }

  /** A zero value has the root 0. */
  lemma CorrectedRootOfZero(p: int, draw: int)
    requires OddPrime(p)
    ensures CorrectedRootPair(p, 0, draw).0 == 0
  {
    var st := DecomposeByTwo(p - 1);
    ResidueInvertible(0, p);
    var h := (st.1 + 1) / 2;
    assert h >= 1;
    assert Pow(0, h) == 0 * Pow(0, h - 1);
    ModOfSmall(0, p);
    var cc := Pow(draw, st.1) % p;
    var inv := ModInverse(0, p).value;
    assert ModExpLeft(0, h, p) == 0;
    RefineCorrectedZero(cc, inv, st.0, 1, p);
  }

  /** A non-zero residue: the invariant holds on entry to the loop, so
      the loop's result squares to v. */
  lemma CorrectedRootOfResidue(p: int, v: int, draw: int)
    requires OddPrime(p) && 0 < v < p
    requires Pow(v, (p - 1) / 2) % p == 1
    requires Pow(draw, (p - 1) / 2) % p == p - 1
    ensures var rs := CorrectedRootPair(p, v, draw); (rs.0 * rs.0) % p == v
  {
    var st := DecomposeByTwo(p - 1);
    EvenBelowOdd(p);
    OddPrimeIsPrime(p);
    ResidueInvertible(v, p);
    var inv := ModInverse(v, p).value;
    ModOfSmall(1, p);
    SplitRootSquares(p, v, draw, st.0, st.1, inv);
  }

  /** The corrected loop from its starting values, for a split
      p - 1 == 2^s * t with t odd, squares to v. */
  lemma SplitRootSquares(p: int, v: int, draw: int, s: nat, t: int, inv: int)
    requires TrulyPrime(p) && 0 < v < p
    requires p - 1 > 0 && (p - 1) % 2 == 0 && t >= 1 && t % 2 == 1 && p - 1 == Pow(2, s) * t
    requires (v * inv) % p == 1
    requires Pow(v, (p - 1) / 2) % p == 1
    requires Pow(draw, (p - 1) / 2) % p == p - 1
    ensures var r' := RefineCorrected(Pow(v, (t + 1) / 2) % p, Pow(draw, t) % p, inv, s, 1, p);
      (r' * r') % p == v
  {
    HalfOf(p - 1, s, t);
    var cc := Pow(draw, t) % p;
    var r := Pow(v, (t + 1) / 2) % p;
    StartInvariant(p, v, inv, t, s);
    ModOfMod(Pow(draw, t), p);
    assert TwoTo(0) == 1;
    assert t * TwoTo(0) == t;
    RefineCorrectedSquares(r, cc, inv, v, draw, t, s, 1, p);
    ModOfSmall(v, p);
  }

  /** The corrected routine returns the square roots: when v is a
      residue, v^((p-1)/2) == 1 (mod p) (or v == 0), and the draw is a
      non-residue, b^((p-1)/2) == -1 (mod p), both returned values square
      to v. The two hypotheses are Euler's criterion, which is not proved
      here. */
  lemma CorrectedRootSquares(p: int, v: int, draw: int)
    requires OddPrime(p) && 0 <= v < p
    requires v == 0 || Pow(v, (p - 1) / 2) % p == 1
    requires Pow(draw, (p - 1) / 2) % p == p - 1
    ensures var rs := CorrectedRootPair(p, v, draw);
      (rs.0 * rs.0) % p == v && (rs.1 * rs.1) % p == v
  {
    var rs := CorrectedRootPair(p, v, draw);
    if v == 0 {
      CorrectedRootOfZero(p, draw);
      ModOfSmall(0, p);
    } else {
      CorrectedRootOfResidue(p, v, draw);
    }
    OppositeSquare(rs.0, p);
  }

  /** Modulo p, the corrected pair holds every square root of v: a y in
      [0, p) squares to v exactly when it is one of the two. */
  lemma CorrectedRootsComplete(p: int, v: int, draw: int, y: int)
    requires OddPrime(p) && 0 <= v < p && 0 <= y < p
    requires v == 0 || Pow(v, (p - 1) / 2) % p == 1
    requires Pow(draw, (p - 1) / 2) % p == p - 1
    ensures var rs := CorrectedRootPair(p, v, draw);
      (y * y) % p == v <==> y == rs.0 || y == rs.1
  {
    var rs := CorrectedRootPair(p, v, draw);
    CorrectedRootSquares(p, v, draw);
    OddPrimeIsPrime(p);
    if (y * y) % p == v {
      SquaresEqual(y, rs.0, p);
    }
    if y == rs.1 {
      OppositeSquare(rs.0, p);
    }
  }

  /** For p == 3 (mod 4), p - 1 == 2 * t with t odd, so step 6 has no
      pass and the code as written returns the corrected pair. The curve
      of test.py (p == 23) is such a case. */
  lemma RootsAgreeThreeModFour(p: int, v: int, draw: int)
    requires OddPrime(p) && 0 <= v < p && p % 4 == 3
    ensures CorrectedRootPair(p, v, draw) == RootPair(p, v, draw)
  {
    var t := OneHalvingStep(p);
    var rs, rs' := CorrectedRootPair(p, v, draw), RootPair(p, v, draw);
    CorrectedNoPass(p, v, draw, t);
    assert OddPart(p) == t;
    assert rs.0 == rs'.0;
  }

  /** When p - 1 halves once, the corrected loop has no pass and the
      corrected root is v^((t+1)/2) mod p. */
  lemma CorrectedNoPass(p: int, v: int, draw: int, t: int)
    requires OddPrime(p) && 0 <= v < p && DecomposeByTwo(p - 1) == (1, t)
    ensures CorrectedRootPair(p, v, draw).0 == Pow(v, (t + 1) / 2) % p
  {
    ResidueInvertible(v, p);
    var inv := ModInverse(v, p).value;
    var r := ModExpLeft(v, (t + 1) / 2, p);
    assert RefineCorrected(r, Pow(draw, t) % p, inv, 1, 1, p) == r;
  }

  /** For p == 3 (mod 4), p - 1 halves exactly once. */
  lemma OneHalvingStep(p: int) returns (t: int)
    requires p >= 3 && p % 4 == 3
    ensures DecomposeByTwo(p - 1) == (1, t) && t == (p - 1) / 2
  {
    t := (p - 1) / 2;
    assert p == 4 * (p / 4) + 3;
    assert t == 2 * (p / 4) + 1;
    assert t % 2 == 1;
    assert p - 1 == Pow(2, 1) * t;
    DecomposeUnique(p - 1, 1, t);
  }

  // ---------------------------------------------------------------------
  // The discrepancy on a concrete curve

  /** y^2 = x^3 + 4 over Z_13 at x == 0: the right-hand side is 4, whose
      roots are 2 and 11. The code as written returns (3, 10), and 3^2 and
      10^2 are 9 modulo 13, so `is_point_on_curve` rejects the point
      (0, 2) although 2^2 == 4. */
  lemma AsWrittenRootWrong()
    ensures SquareRootsWith(Curve(0, 4, 13), 0, 2) == Some((3, 10))
    ensures EquationValue(Curve(0, 4, 13), 0) == 4
    ensures (3 * 3) % 13 != 4 && (10 * 10) % 13 != 4 && (2 * 2) % 13 == 4
    ensures !IsPointOnCurve(Curve(0, 4, 13), Affine(0, 2))
  {
    assert NoDivisorFrom(13, 4);
    assert OddPrime(13);
    assert DecomposeByTwo(4) == (2, 1);
    assert Legendre(4, 13) == 1;
    DecomposeUnique(12, 2, 3);
    assert OddPart(13) == 3;
    assert PrincipalRoot(Curve(0, 4, 13), 0) == 3;
    OnCurveIff(Curve(0, 4, 13), 0, 2);
  }

  /** The corrected routine on the same value, with the non-residue 2
      (2^6 == 12 == -1 modulo 13), returns the true roots 11 and 2. */
  lemma CorrectedRootExample()
    ensures CorrectedRootPair(13, 4, 2) == (11, 2)
  {
    assert OddPrime(13) by {
      assert NoDivisorFrom(13, 4);
    }
    DecomposeUnique(12, 2, 3);
    InverseOfFour();
    assert Pow(4, 2) == 16 by {
      assert Pow(4, 1) == 4;
    }
    assert Pow(2, 3) == 8 by {
      assert Pow(2, 1) == 2 && Pow(2, 2) == 4;
    }
    ExampleRefinement();
    assert RefineCorrected(ModExpLeft(4, 2, 13), Pow(2, 3) % 13, 10, 2, 1, 13) == 11;
  }

  /** 4 * 10 == 40 == 1 modulo 13. */
  lemma InverseOfFour()
    ensures ModInverse(4, 13) == Some(10)
  {
    assert Gcd(Reduced(4, 13), 13) == 1;
    var inv := ModInverse(4, 13).value;
    assert (4 * inv) % 13 == 1 && 0 <= inv < 13;
  }

  /** The only pass: d == (3^2 * 10)^1 mod 13 == 12 == -1, so
      r := 3 * 8 mod 13 == 11. */
  lemma ExampleRefinement()
    ensures RefineCorrected(3, 8, 10, 2, 1, 13) == 11
  {
    assert TwoTo(0) == 1;
    assert Pow(90, 1) == 90;
    assert RefineCorrected(11, 64 % 13, 10, 2, 2, 13) == 11;
  }
}
