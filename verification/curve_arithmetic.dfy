/** The group side of elliptic_curve_cryptosystem.py: the tangent and chord
    rules (section 2.2.1 of SEC 1 v2.0), `add_two_point`,
    `point_multiplication` and `order_of_given_point`. A `None` result
    stands for the coprimality assertion of `get_multiplicative_inverse`
    failing; the source's own "point at infinity" is `Some(Infinity)`. */
module CurveArithmetic {
  import opened Arith
  import opened Wrappers
  import opened Euclid
  import opened Primes
  import opened EllipticCurve

  // ---------------------------------------------------------------------
  // Slopes and the two addition rules

  /** Multiplying N by the inverse of d solves k * d == N (mod p). */
  lemma SlopeSolves(n: int, d: int, inv: int, p: int)
    requires p >= 1 && (d != 0 ==> (d * inv) % p == 1 % p)
    ensures d != 0 ==> ((n * inv % p) * d) % p == n % p
  {
    if d != 0 {
      MulInverseSolves(d, n, p, inv);
      assert (n * inv % p) * d == d * (n * inv % p);
    }
  }

  /** The tangent slope (3x^2 + a) / (2y) mod p. As in the source, 2y == 0
      is not special-cased: its "inverse" is 0. */
  function TangentSlope(c: Curve, x: int, y: int): (k: Option<int>)
    requires c.p >= 1
    ensures k.Some? <==> y == 0 || Gcd(Reduced(2 * y, c.p), c.p) == 1
    ensures k.Some? ==> 0 <= k.value < c.p
    ensures k.Some? && y != 0 ==> (k.value * (2 * y)) % c.p == (3 * Pow(x, 2) + c.a) % c.p
    ensures k.Some? && y == 0 ==> k.value == 0
  {
    match ModInverse(2 * y, c.p)
    case None => None
    case Some(inv) =>
      var n := 3 * Pow(x, 2) + c.a;
      SlopeSolves(n, 2 * y, inv, c.p);
      Some(n * inv % c.p)
  }

  /** The chord slope (h.y - g.y) / (h.x - g.x) mod p, with the same
      treatment of a zero denominator. */
  function ChordSlope(c: Curve, g: Point, h: Point): (k: Option<int>)
    requires c.p >= 1 && g.Affine? && h.Affine?
    ensures k.Some? <==> h.x == g.x || Gcd(Reduced(h.x - g.x, c.p), c.p) == 1
    ensures k.Some? ==> 0 <= k.value < c.p
    ensures k.Some? && h.x != g.x ==> (k.value * (h.x - g.x)) % c.p == (h.y - g.y) % c.p
    ensures k.Some? && h.x == g.x ==> k.value == 0
  {
    match ModInverse(h.x - g.x, c.p)
    case None => None
    case Some(inv) =>
      var n := h.y - g.y;
      SlopeSolves(n, h.x - g.x, inv, c.p);
      Some(n * inv % c.p)
  }

  /** Doubling q: x' = k^2 - 2x and y' = k(x - x') - y, both mod p. */
  function Tangent(c: Curve, q: Point): (r: Option<Point>)
    requires c.p >= 1 && q.Affine?
    ensures r.Some? <==> TangentSlope(c, q.x, q.y).Some?
    ensures r.Some? ==> r.value.Affine? && 0 <= r.value.x < c.p && 0 <= r.value.y < c.p
    ensures r.Some? ==>
      var k := TangentSlope(c, q.x, q.y).value;
      (r.value.x + 2 * q.x) % c.p == Pow(k, 2) % c.p
      && (r.value.y + q.y) % c.p == (k * (q.x - r.value.x)) % c.p
  {
    match TangentSlope(c, q.x, q.y)
    case None => None
    case Some(k) =>
      var x' := (Pow(k, 2) - 2 * q.x) % c.p;
      var y' := (k * (q.x - x') - q.y) % c.p;
      ModSub(Pow(k, 2), 2 * q.x, c.p);
      ModSub(k * (q.x - x'), q.y, c.p);
      ReduceShift(x', 2 * q.x, Pow(k, 2), c.p);
      ReduceShift(y', q.y, k * (q.x - x'), c.p);
      Some(Affine(x', y'))
  }

  /** From v == (w - u) mod p it follows that v + u == w (mod p). */
  lemma ReduceShift(v: int, u: int, w: int, p: int)
    requires p >= 1 && v == (w - u) % p
    ensures (v + u) % p == w % p
  {
    ModAdd(w - u, u, p);
    ModAdd(v, u, p);
    ModOfMod(w - u, p);
  }

  /** Adding h to g along the chord: x' = k^2 - h.x - g.x and
      y' = k(g.x - x') - g.y, both mod p. */
  function Chord(c: Curve, g: Point, h: Point): (r: Option<Point>)
    requires c.p >= 1 && g.Affine? && h.Affine?
    ensures r.Some? <==> ChordSlope(c, g, h).Some?
    ensures r.Some? ==> r.value.Affine? && 0 <= r.value.x < c.p && 0 <= r.value.y < c.p
    ensures r.Some? ==>
      var k := ChordSlope(c, g, h).value;
      (r.value.x + h.x + g.x) % c.p == Pow(k, 2) % c.p
      && (r.value.y + g.y) % c.p == (k * (g.x - r.value.x)) % c.p
  {
    match ChordSlope(c, g, h)
    case None => None
    case Some(k) => Some(ChordPoint(c.p, k, g, h))
  }

  /** The third point of the line of slope k through g and h. */
  function ChordPoint(p: int, k: int, g: Point, h: Point): (r: Point)
    requires p >= 1 && g.Affine? && h.Affine?
    ensures r.Affine? && 0 <= r.x < p && 0 <= r.y < p
    ensures (r.x + h.x + g.x) % p == Pow(k, 2) % p
    ensures (r.y + g.y) % p == (k * (g.x - r.x)) % p
  {
    var x' := (Pow(k, 2) - h.x - g.x) % p;
    var y' := (k * (g.x - x') - g.y) % p;
    assert Pow(k, 2) - h.x - g.x == Pow(k, 2) - (h.x + g.x);
    ReduceShift(x', h.x + g.x, Pow(k, 2), p);
    ReduceShift(y', g.y, k * (g.x - x'), p);
    Affine(x', y')
  }

  // ---------------------------------------------------------------------
  // add_two_point

  /** `add_two_point(a, b, p, g, h)`: both points must be on the curve.
      Equal points are doubled, distinct points over the same x give the
      point at infinity, all others are added along the chord. */
  function AddTwoPoint(c: Curve, g: Point, h: Point): (r: Option<Point>)
    requires IsPointOnCurve(c, g) && IsPointOnCurve(c, h)
    ensures r == Some(Infinity) <==> g != h && g.x == h.x
    ensures r.Some? && r.value.Affine? ==> 0 <= r.value.x < c.p && 0 <= r.value.y < c.p
    ensures g == h ==> r == Tangent(c, g)
    ensures g.x != h.x ==> r == Chord(c, g, h)
  {
    if g == h then Tangent(c, g)
    else if g.x == h.x then Some(Infinity)
    else Chord(c, g, h)
  }

  /** A residue has an inverse modulo a prime exactly when it is 0 (the
      source's special case) or not a multiple of the prime. */
  lemma InverseModPrime(a: int, p: int)
    requires TrulyPrime(p)
    ensures ModInverse(a, p).Some? <==> a == 0 || a % p != 0
  {
    if a != 0 {
      var r := Reduced(a, p);
      if a < 0 {
        ModOfMod(a, p);
      }
      assert r % p == a % p;
      if r % p == 0 {
        GcdOfMultiple(r, p);
      } else {
        PrimeCoprime(r, p);
      }
    }
  }

  /** p shares itself with every multiple of p. */
  lemma GcdOfMultiple(r: nat, p: int)
    requires p >= 2 && r % p == 0
    ensures Gcd(r, p) != 1
  {
    DividesSelf(p);
    var g := Gcd(r, p);
    DivisorAtMost(p, g);
  }

  /** Twice a value in (0, p) is not a multiple of an odd p. */
  lemma DoubleNotMultiple(y: int, p: int)
    requires p >= 3 && p % 2 == 1 && 0 < y < p
    ensures (2 * y) % p != 0
  {
    if 2 * y < p {
      ModOfSmall(2 * y, p);
    } else {
      assert 2 * y != p;
      DivModUnique(2 * y, p, 1, 2 * y - p);
    }
  }

  /** Doubling a point of the curve fails only for y == p, where 2y is a
      multiple of p; y == 0 doubles through the zero "inverse". */
  lemma DoublingDefined(c: Curve, x: int, y: int)
    requires IsPointOnCurve(c, Affine(x, y))
    ensures Tangent(c, Affine(x, y)).None? <==> y == c.p
  {
    OnCurveMirror(c, x, y);
    OddPrimeIsPrime(c.p);
    InverseModPrime(2 * y, c.p);
    if 0 < y < c.p {
      DoubleNotMultiple(y, c.p);
    } else if y == c.p {
      MultipleMod(2, c.p);
    }
  }

  /** The chord rule fails exactly when the two x differ by a nonzero
      multiple of p. */
  lemma ChordDefined(c: Curve, g: Point, h: Point)
    requires c.p >= 2 && TrulyPrime(c.p) && g.Affine? && h.Affine?
    ensures Chord(c, g, h).None? <==> h.x != g.x && (h.x - g.x) % c.p == 0
  {
    InverseModPrime(h.x - g.x, c.p);
  }

  /** When `add_two_point` fails: doubling a point with y == p, or two
      points whose x differ by a nonzero multiple of p. */
  lemma AddDefined(c: Curve, g: Point, h: Point)
    requires IsPointOnCurve(c, g) && IsPointOnCurve(c, h)
    ensures AddTwoPoint(c, g, h).None? <==>
      (g == h && g.y == c.p) || (g.x != h.x && (h.x - g.x) % c.p == 0)
  {
    OddPrimeIsPrime(c.p);
    if g == h {
      DoublingDefined(c, g.x, g.y);
    } else if g.x != h.x {
      ChordDefined(c, g, h);
    }
  }

  /** A point plus its mirror image is the point at infinity. */
  lemma AddMirror(c: Curve, x: int, y: int)
    requires IsPointOnCurve(c, Affine(x, y)) && y != c.p - y
    ensures IsPointOnCurve(c, Affine(x, c.p - y))
    ensures AddTwoPoint(c, Affine(x, y), Affine(x, c.p - y)) == Some(Infinity)
  {
    OnCurveMirror(c, x, y);
  }

  /** Congruence survives negation. */
  lemma NegCongruent(u: int, v: int, p: int)
    requires p >= 1 && u % p == v % p
    ensures (-u) % p == (-v) % p
  {
    ModSub(0, u, p);
    ModSub(0, v, p);
  }

  /** u is a multiple of p exactly when -u is. */
  lemma NegMultiple(u: int, p: int)
    requires p >= 1
    ensures u % p == 0 <==> (-u) % p == 0
  {
    if u % p == 0 {
      NegCongruent(u, 0, p);
    }
    if (-u) % p == 0 {
      NegCongruent(-u, 0, p);
    }
  }

  /** Two residues in [0, p) with k1*d == k2*d (mod p), d invertible, are
      equal. */
  lemma CancelCommonFactor(k1: int, k2: int, d: int, inv: int, p: int)
    requires p >= 1 && (d * inv) % p == 1 % p
    requires 0 <= k1 < p && 0 <= k2 < p
    requires (k1 * d) % p == (k2 * d) % p
    ensures k1 == k2
  {
    CancelByInverse(d, inv, p, k1);
    CancelByInverse(d, inv, p, k2);
    assert d * k1 == k1 * d && d * k2 == k2 * d;
    ModMul(inv, d * k1, p);
    ModMul(inv, d * k2, p);
    ModOfSmall(k1, p);
    ModOfSmall(k2, p);
  }

  /** Slopes of the same line measured in both directions agree. */
  lemma SlopeUnique(k1: int, k2: int, d: int, dy: int, inv: int, p: int)
    requires p >= 1 && (d * inv) % p == 1 % p
    requires 0 <= k1 < p && 0 <= k2 < p
    requires (k1 * d) % p == dy % p && (k2 * -d) % p == (-dy) % p
    ensures k1 == k2
  {
    NegCongruent(k2 * -d, -dy, p);
    assert -(k2 * -d) == k2 * d;
    CancelCommonFactor(k1, k2, d, inv, p);
  }

  /** Both orders of a chord have the same slope. */
  lemma ChordSlopeSymmetric(c: Curve, g: Point, h: Point)
    requires c.p >= 1 && g.Affine? && h.Affine? && g.x != h.x
    requires ChordSlope(c, g, h).Some? && ChordSlope(c, h, g).Some?
    ensures ChordSlope(c, g, h) == ChordSlope(c, h, g)
  {
    var d := h.x - g.x;
    assert g.x - h.x == -d && g.y - h.y == -(h.y - g.y);
    SlopeUnique(ChordSlope(c, g, h).value, ChordSlope(c, h, g).value, d, h.y - g.y,
                ModInverse(d, c.p).value, c.p);
  }

  /** The y of the chord sum does not depend on which point the line is
      anchored at. */
  lemma ChordAnchor(k: int, g: Point, h: Point, x': int, p: int)
    requires p >= 1 && g.Affine? && h.Affine?
    requires (k * (h.x - g.x)) % p == (h.y - g.y) % p
    ensures (k * (g.x - x') - g.y) % p == (k * (h.x - x') - h.y) % p
  {
    CongruentIff(k * (h.x - g.x), h.y - g.y, p);
    var z := k * (h.x - g.x) - (h.y - g.y);
    NegCongruent(z, 0, p);
    assert (k * (g.x - x') - g.y) - (k * (h.x - x') - h.y) == -z;
    CongruentIff(k * (g.x - x') - g.y, k * (h.x - x') - h.y, p);
  }

  /** The chord rule does not depend on the order of its points. */
  lemma ChordCommutes(c: Curve, g: Point, h: Point)
    requires c.p >= 2 && TrulyPrime(c.p) && g.Affine? && h.Affine? && g.x != h.x
    ensures Chord(c, g, h) == Chord(c, h, g)
  {
    ChordDefined(c, g, h);
    ChordDefined(c, h, g);
    NegMultiple(h.x - g.x, c.p);
    assert -(h.x - g.x) == g.x - h.x;
    if Chord(c, g, h).Some? {
      DefinedChordCommutes(c, g, h);
    }
  }

  /** The same, once both slopes are known to exist. */
  lemma DefinedChordCommutes(c: Curve, g: Point, h: Point)
    requires c.p >= 1 && g.Affine? && h.Affine? && g.x != h.x
    requires ChordSlope(c, g, h).Some? && ChordSlope(c, h, g).Some?
    ensures Chord(c, g, h) == Chord(c, h, g)
  {
    ChordSlopeSymmetric(c, g, h);
    ChordPointSymmetric(c.p, ChordSlope(c, g, h).value, g, h);
  }

  /** Along a line through g and h, the third point does not depend on
      which of the two the line is anchored at. */
  lemma ChordPointSymmetric(p: int, k: int, g: Point, h: Point)
    requires p >= 1 && g.Affine? && h.Affine?
    requires (k * (h.x - g.x)) % p == (h.y - g.y) % p
    ensures ChordPoint(p, k, g, h) == ChordPoint(p, k, h, g)
  {
    var x' := (Pow(k, 2) - h.x - g.x) % p;
    assert x' == (Pow(k, 2) - g.x - h.x) % p;
    ChordAnchor(k, g, h, x', p);
  }

  /** `add_two_point` is commutative. */
  lemma AddCommutes(c: Curve, g: Point, h: Point)
    requires IsPointOnCurve(c, g) && IsPointOnCurve(c, h)
    ensures AddTwoPoint(c, g, h) == AddTwoPoint(c, h, g)
  {
    if g != h && g.x != h.x {
      OddPrimeIsPrime(c.p);
      ChordCommutes(c, g, h);
    }
  }

  // ---------------------------------------------------------------------
  // point_multiplication

  /** The doubling half of one loop iteration: the point at infinity stays
      put (the source's `q *= 2` on `(inf, inf)`), a finite point is
      doubled by the tangent rule. */
  function DoubleStep(c: Curve, o: Option<Point>): (r: Option<Point>)
    requires c.p >= 1
    ensures o == Some(Infinity) ==> r == Some(Infinity)
    ensures o.Some? && o.value.Affine? ==> r == Tangent(c, o.value)
    ensures r.Some? && r.value.Affine? ==> o.Some? && o.value.Affine?
  {
    match o
    case None => None
    case Some(Infinity) => Some(Infinity)
    case Some(q) => Tangent(c, q)
  }

  /** The addition half, on a 1 digit: from infinity the point becomes g,
      otherwise g is added along the chord. Equal points are not special-
      cased, so q == g goes through the zero "inverse". */
  function AddStep(c: Curve, g: Point, o: Option<Point>): (r: Option<Point>)
    requires c.p >= 1
    requires o.Some? && o.value.Affine? ==> g.Affine?
    ensures o == Some(Infinity) ==> r == Some(g)
    ensures o.Some? && o.value.Affine? ==> r == Chord(c, g, o.value)
    ensures o.None? ==> r.None?
  {
    match o
    case None => None
    case Some(Infinity) => Some(g)
    case Some(q) => Chord(c, g, q)
  }

  /** The loop over the digits `bits` of `bin(m)[2:]`, from the point at
      infinity. */
  function MultiplyBits(c: Curve, bits: seq<bool>, g: Point): (r: Option<Point>)
    requires c.p >= 1
    ensures g.Infinity? ==> r == Some(Infinity)
    ensures |bits| == 0 ==> r == Some(Infinity)
    decreases |bits|
  {
    if |bits| == 0 then Some(Infinity)
    else
      var d := DoubleStep(c, MultiplyBits(c, bits[..|bits| - 1], g));
      if bits[|bits| - 1] then AddStep(c, g, d) else d
  }

  /** The characters of `bin(m)[2:]`, each as "is it a 1". For a negative
      m, `bin` gives "-0b..." and slicing off two characters leaves the
      'b' in front of the digits of -m; it is not a 1. */
  function Digits(m: int): (bits: seq<bool>)
    ensures m >= 0 ==> bits == Bin(m)
    ensures m < 0 ==> bits == [false] + Bin(-m)
  {
    if m < 0 then [false] + Bin(-m) else Bin(m)
  }

  /** `point_multiplication(a, b, p, m, g)`: [m]G, walking the characters
      of `bin(m)[2:]` from the most significant. The source asserts the
      curve is not singular. */
  function PointMultiplication(c: Curve, m: int, g: Point): (r: Option<Point>)
    requires !IsSingular(c.a, c.b) && c.p >= 1
    ensures m == 0 ==> r == Some(Infinity)
    ensures m == 1 || m == -1 ==> r == Some(g)
    ensures g.Infinity? ==> r == Some(Infinity)
  {
    var bits := Digits(m);
    if m < 0 then
      MultiplyBitsLeadingZero(c, Bin(-m), g);
      MultiplyBits(c, bits, g)
    else
      MultiplyBits(c, bits, g)
  }

  /** A leading 0 digit only doubles the point at infinity. */
  lemma {:induction false} MultiplyBitsLeadingZero(c: Curve, bits: seq<bool>, g: Point)
    requires c.p >= 1
    ensures MultiplyBits(c, [false] + bits, g) == MultiplyBits(c, bits, g)
    decreases |bits|
  {
    var padded := [false] + bits;
    if |bits| == 0 {
      assert padded[..0] == [];
    } else {
      assert padded[..|padded| - 1] == [false] + bits[..|bits| - 1];
      assert padded[|padded| - 1] == bits[|bits| - 1];
      MultiplyBitsLeadingZero(c, bits[..|bits| - 1], g);
    }
  }

  /** A negative multiplier gives the same point as its absolute value:
      the sign character only doubles the point at infinity, so the source
      computes [|m|]G, not -[|m|]G. */
  lemma NegativeMultiplier(c: Curve, m: int, g: Point)
    requires !IsSingular(c.a, c.b) && c.p >= 1 && m < 0
    ensures PointMultiplication(c, m, g) == PointMultiplication(c, -m, g)
  {
    MultiplyBitsLeadingZero(c, Bin(-m), g);
  }

  /** With a leading 1 digit and a finite g the loop never yields the point
      at infinity. */
  lemma {:induction false} MultiplyBitsFinite(c: Curve, bits: seq<bool>, g: Point)
    requires c.p >= 1 && g.Affine? && |bits| >= 1 && bits[0]
    ensures MultiplyBits(c, bits, g).Some? ==> MultiplyBits(c, bits, g).value.Affine?
    decreases |bits|
  {
    var prefix := bits[..|bits| - 1];
    if |bits| > 1 {
      MultiplyBitsFinite(c, prefix, g);
    } else {
      assert MultiplyBits(c, prefix, g) == Some(Infinity);
    }
  }

  /** [m]G is finite for m >= 1 and finite G. */
  lemma MultiplicationFinite(c: Curve, m: nat, g: Point)
    requires !IsSingular(c.a, c.b) && c.p >= 1 && g.Affine? && m >= 1
    ensures PointMultiplication(c, m, g).Some? ==> PointMultiplication(c, m, g).value.Affine?
  {
    MultiplyBitsFinite(c, Bin(m), g);
  }

  /** Appending a digit is one more loop iteration. */
  lemma MultiplyBitsAppend(c: Curve, bits: seq<bool>, g: Point)
    requires c.p >= 1
    ensures MultiplyBits(c, bits + [false], g) == DoubleStep(c, MultiplyBits(c, bits, g))
    ensures MultiplyBits(c, bits + [true], g) == AddStep(c, g, DoubleStep(c, MultiplyBits(c, bits, g)))
  {
    assert (bits + [false])[..|bits|] == bits;
    assert (bits + [true])[..|bits|] == bits;
  }

  /** Doubling the multiplier doubles the point by the tangent rule; the
      next odd multiplier then adds G along the chord. */
  lemma MultiplicationRecurrence(c: Curve, m: nat, g: Point)
    requires !IsSingular(c.a, c.b) && c.p >= 1 && m >= 1
    ensures PointMultiplication(c, 2 * m, g) == DoubleStep(c, PointMultiplication(c, m, g))
    ensures PointMultiplication(c, 2 * m + 1, g)
            == AddStep(c, g, DoubleStep(c, PointMultiplication(c, m, g)))
  {
    var b := Bin(m);
    BinAppend(m);
    MultiplyBitsAppend(c, b, g);
  }

  /** For m >= 2 and finite G, a defined [m]G has reduced coordinates. */
  lemma MultiplicationReduced(c: Curve, m: nat, g: Point)
    requires !IsSingular(c.a, c.b) && c.p >= 1 && g.Affine? && m >= 2
    ensures PointMultiplication(c, m, g).Some? ==>
      var q := PointMultiplication(c, m, g).value;
      q.Affine? && 0 <= q.x < c.p && 0 <= q.y < c.p
  {
    var h := m / 2;
    MultiplicationRecurrence(c, h, g);
    MultiplicationFinite(c, h, g);
    MultiplicationFinite(c, m, g);
    assert m == 2 * h || m == 2 * h + 1;
  }

  /** [2]G is `add_two_point(G, G)`. */
  lemma MultiplicationTwo(c: Curve, g: Point)
    requires !IsSingular(c.a, c.b) && IsPointOnCurve(c, g)
    ensures PointMultiplication(c, 2, g) == AddTwoPoint(c, g, g)
  {
    MultiplicationRecurrence(c, 1, g);
  }

  // ---------------------------------------------------------------------
  // order_of_given_point

  /** How the `while q` loop ends: with the list of points (the source
      returns it, or its length, which is the order), with an assertion
      failure, or by running out of the fuel the model adds. */
  datatype OrderOutcome = Finished(points: seq<Point>) | Failed | OutOfFuel

  /** ps starts at g, lies on the curve, and each element is g plus the
      previous one. */
  predicate Orbit(c: Curve, g: Point, ps: seq<Point>)
  {
    |ps| >= 1 && ps[0] == g
    && (forall i :: 0 <= i < |ps| ==> IsPointOnCurve(c, ps[i]))
    && IsPointOnCurve(c, g)
    && (forall i :: 0 <= i < |ps| - 1 ==> AddTwoPoint(c, g, ps[i]) == Some(ps[i + 1]))
  }

  /** The loop's result: the orbit, then the point at infinity reached
      from its last element. */
  predicate FinishedOrbit(c: Curve, g: Point, ps: seq<Point>)
  {
    |ps| >= 2 && ps[|ps| - 1] == Infinity
    && Orbit(c, g, ps[..|ps| - 1])
    && AddTwoPoint(c, g, ps[|ps| - 2]) == Some(Infinity)
  }

  /** A further point g + last keeps the orbit an orbit. */
  lemma OrbitExtend(c: Curve, g: Point, points: seq<Point>, q: Point)
    requires Orbit(c, g, points) && IsPointOnCurve(c, q)
    requires AddTwoPoint(c, g, points[|points| - 1]) == Some(q)
    ensures Orbit(c, g, points + [q])
  {
    var ps := points + [q];
    forall i | 0 <= i < |ps|
      ensures IsPointOnCurve(c, ps[i])
    {
      if i < |points| {
        assert ps[i] == points[i];
      }
    }
    forall i | 0 <= i < |ps| - 1
      ensures AddTwoPoint(c, g, ps[i]) == Some(ps[i + 1])
    {
      if i < |points| - 1 {
        assert ps[i] == points[i] && ps[i + 1] == points[i + 1];
      }
    }
  }

  /** Reaching the point at infinity closes the orbit. */
  lemma OrbitClose(c: Curve, g: Point, points: seq<Point>)
    requires Orbit(c, g, points)
    requires AddTwoPoint(c, g, points[|points| - 1]) == Some(Infinity)
    ensures FinishedOrbit(c, g, points + [Infinity])
  {
    var ps := points + [Infinity];
    assert ps[..|ps| - 1] == points;
  }

  /** The loop from the current q, with the points listed so far. */
  function OrderLoop(c: Curve, g: Point, q: Point, points: seq<Point>, fuel: nat): (r: OrderOutcome)
    requires Orbit(c, g, points) && AddTwoPoint(c, g, points[|points| - 1]) == Some(q)
    ensures r.Finished? ==> points <= r.points && FinishedOrbit(c, g, r.points)
    decreases fuel
  {
    if q.Infinity? then
      OrbitClose(c, g, points);
      Finished(points + [Infinity])
    else if fuel == 0 then OutOfFuel
    else if !IsPointOnCurve(c, q) then Failed
    else
      match AddTwoPoint(c, g, q)
      case None => Failed
      case Some(q') =>
        OrbitExtend(c, g, points, q);
        OrderLoop(c, g, q', points + [q], fuel - 1)
  }

  /** `order_of_given_point(a, b, p, g)`, with at most `fuel` iterations:
      the list g, 2G, 3G, ... up to the first point whose sum with g is the
      point at infinity, then the infinity marker. Its length is the order
      the source reports, and is at least 2. */
  function OrderOfGivenPoint(c: Curve, g: Point, fuel: nat): (r: OrderOutcome)
    requires IsPointOnCurve(c, g)
    ensures r.Finished? ==> |r.points| >= 2 && r.points[0] == g && FinishedOrbit(c, g, r.points)
  {
    match AddTwoPoint(c, g, g)
    case None => Failed
    case Some(q) => OrderLoop(c, g, q, [g], fuel)
  }
}
