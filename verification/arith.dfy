/** Integer arithmetic shared by every module: exponentiation, Euclidean
    remainder facts, and the binary digits Python's `bin(x)[2:]` produces.
    For a positive modulus, Dafny's `%` and `/` agree with Python's `%` and `//`,
    which is the only case the rest of the model uses. */
module Arith {

  /** b raised to the non-negative power e. */
  function Pow(b: int, e: nat): int
  {
    if e == 0 then 1 else b * Pow(b, e - 1)
  }

  /** d divides n (d positive). */
  predicate Divides(d: int, n: int)
  {
    d > 0 && n % d == 0
  }

  // ---------------------------------------------------------------------
  // Remainder facts

  lemma DivModUnique(x: int, m: int, q: int, r: int)
    requires m > 0 && x == q * m + r && 0 <= r < m
    ensures x % m == r && x / m == q
  {
    var q0, r0 := x / m, x % m;
    assert x == q0 * m + r0;
    assert (q0 - q) * m == r - r0;
    if q0 > q {
      MulMonotone(q0 - q, 1, m);
    } else if q0 < q {
      MulMonotone(q - q0, 1, m);
    }
  }

  lemma MulMonotone(a: int, b: int, m: int)
    requires a >= b && m >= 0
    ensures a * m >= b * m
  {
    assert a * m - b * m == (a - b) * m;
  }

  lemma ModAddMultiple(k: int, m: int, y: int)
    requires m > 0
    ensures (k * m + y) % m == y % m
  {
    var q := y / m;
    assert y == q * m + y % m;
    assert k * m + y == (k + q) * m + y % m;
    DivModUnique(k * m + y, m, k + q, y % m);
  }

  lemma MultipleMod(k: int, m: int)
    requires m > 0
    ensures (k * m) % m == 0 && (m * k) % m == 0
  {
    ModAddMultiple(k, m, 0);
  }

  lemma ModOfMod(x: int, m: int)
    requires m > 0
    ensures (x % m) % m == x % m
  {
    DivModUnique(x % m, m, 0, x % m);
  }

  lemma ModOfSmall(x: int, m: int)
    requires m > 0 && 0 <= x < m
    ensures x % m == x
  {
    DivModUnique(x, m, 0, x);
  }

  /** Two numbers are congruent mod m exactly when m divides their difference. */
  lemma CongruentIff(x: int, y: int, m: int)
    requires m > 0
    ensures x % m == y % m <==> (x - y) % m == 0
  {
    var qx, qy := x / m, y / m;
    assert x == qx * m + x % m;
    assert y == qy * m + y % m;
    assert x - y == (qx - qy) * m + (x % m - y % m);
    if x % m == y % m {
      MultipleMod(qx - qy, m);
    } else {
      var d := x % m - y % m;
      if d > 0 {
        DivModUnique(x - y, m, qx - qy, d);
      } else {
        assert x - y == (qx - qy - 1) * m + (m + d);
        DivModUnique(x - y, m, qx - qy - 1, m + d);
      }
    }
  }

  lemma ModAdd(x: int, y: int, m: int)
    requires m > 0
    ensures (x + y) % m == (x % m + y % m) % m
    ensures (x + y) % m == (x % m + y) % m
  {
    var qx, qy := x / m, y / m;
    assert x == qx * m + x % m;
    assert y == qy * m + y % m;
    assert x + y == (qx + qy) * m + (x % m + y % m);
    ModAddMultiple(qx + qy, m, x % m + y % m);
    assert x + y == qx * m + (x % m + y);
    ModAddMultiple(qx, m, x % m + y);
  }

  lemma ModSub(x: int, y: int, m: int)
    requires m > 0
    ensures (x - y) % m == (x % m - y % m) % m
    ensures (x - y) % m == (x % m - y) % m
    ensures (x - y) % m == (x - y % m) % m
  {
    var qx, qy := x / m, y / m;
    assert x == qx * m + x % m;
    assert y == qy * m + y % m;
    assert x - y == (qx - qy) * m + (x % m - y % m);
    ModAddMultiple(qx - qy, m, x % m - y % m);
    assert x - y == qx * m + (x % m - y);
    ModAddMultiple(qx, m, x % m - y);
    assert x - y == (-qy) * m + (x - y % m);
    ModAddMultiple(-qy, m, x - y % m);
  }

  lemma ModMulLeft(x: int, y: int, m: int)
    requires m > 0
    ensures (x * y) % m == ((x % m) * y) % m
  {
    var q := x / m;
    assert x == q * m + x % m;
    assert x * y == (q * y) * m + (x % m) * y;
    ModAddMultiple(q * y, m, (x % m) * y);
  }

  lemma ModMul(x: int, y: int, m: int)
    requires m > 0
    ensures (x * y) % m == ((x % m) * (y % m)) % m
    ensures (x * y) % m == (x * (y % m)) % m
  {
    ModMulLeft(x, y, m);
    ModMulLeft(y, x % m, m);
    assert (x % m) * y == y * (x % m);
    assert (y % m) * (x % m) == (x % m) * (y % m);
    ModMulLeft(y, x, m);
    assert y * x == x * y;
    assert (y % m) * x == x * (y % m);
  }

  // ---------------------------------------------------------------------
  // Powers

  lemma MulAssoc4(a: int, b: int, c: int, d: int)
    ensures (a * b) * (c * d) == (a * c) * (b * d)
  {
  }

  lemma PowPositive(b: int, e: nat)
    requires b > 0
    ensures Pow(b, e) > 0
  {
    if e > 0 {
      PowPositive(b, e - 1);
    }
  }

  lemma PowAdd(b: int, e1: nat, e2: nat)
    ensures Pow(b, e1 + e2) == Pow(b, e1) * Pow(b, e2)
    decreases e1
  {
    if e1 > 0 {
      PowAdd(b, e1 - 1, e2);
      assert Pow(b, e1 + e2) == b * Pow(b, e1 - 1 + e2);
    }
  }

  lemma PowMul(b: int, e1: nat, e2: nat)
    ensures Pow(b, e1 * e2) == Pow(Pow(b, e1), e2)
    decreases e2
  {
    if e2 > 0 {
      var m := MulPredecessor(e1, e2);
      var y := Pow(b, e1);
      calc {
        Pow(b, e1 * e2);
        Pow(b, m + e1);
        { PowAdd(b, m, e1); }
        Pow(b, m) * y;
        { PowMul(b, e1, e2 - 1); }
        Pow(y, e2 - 1) * y;
        Pow(y, e2);
      }
    }
  }

  /** e1 * (e2 - 1), as a nat, with e1 * e2 == that + e1. */
  function MulPredecessor(e1: nat, e2: nat): (m: nat)
    requires e2 > 0
    ensures m == e1 * (e2 - 1) && e1 * e2 == m + e1
  {
    MulMonotone(e2 - 1, 0, e1);
    assert e1 * (e2 - 1) == e1 * e2 - e1;
    e1 * (e2 - 1)
  }

  lemma PowSquare(b: int, e: nat)
    ensures Pow(b, 2 * e) == Pow(b, e) * Pow(b, e)
    ensures Pow(b * b, e) == Pow(b, 2 * e)
  {
    PowAdd(b, e, e);
    assert 2 * e == e + e;
    PowMul(b, 2, e);
    assert Pow(b, 2) == b * Pow(b, 1) == b * b;
  }

  lemma PowProduct(x: int, y: int, e: nat)
    ensures Pow(x * y, e) == Pow(x, e) * Pow(y, e)
  {
    if e > 0 {
      PowProduct(x, y, e - 1);
      var px, py := Pow(x, e - 1), Pow(y, e - 1);
      calc {
        Pow(x * y, e);
        (x * y) * (px * py);
        { MulAssoc4(x, y, px, py); }
        (x * px) * (y * py);
      }
    }
  }

  /** Reducing the base modulo m does not change the power modulo m. */
  lemma PowMod(b: int, e: nat, m: int)
    requires m > 0
    ensures Pow(b % m, e) % m == Pow(b, e) % m
  {
    if e > 0 {
      PowMod(b, e - 1, m);
      ModMul(b % m, Pow(b % m, e - 1), m);
      ModMul(b, Pow(b, e - 1), m);
      ModOfMod(b, m);
    }
  }

  /** 1 raised to any power is 1. */
  lemma PowOne(e: nat)
    ensures Pow(1, e) == 1
  {
    if e > 0 {
      PowOne(e - 1);
    }
  }

  /** When b^k == 1 (mod m), b^e mod m depends only on e mod k. */
  lemma PowPeriodic(b: int, k: nat, e1: nat, e2: nat, m: int)
    requires m > 0 && k > 0 && Pow(b, k) % m == 1 % m
    requires e1 % k == e2 % k
    ensures Pow(b, e1) % m == Pow(b, e2) % m
  {
    PowReduce(b, k, e1, m);
    PowReduce(b, k, e2, m);
  }

  /** Raising to a, reducing mod n, then raising to b is raising to a*b
      mod n. */
  lemma PowOfPowMod(x: int, a: nat, b: nat, n: int)
    requires n >= 1
    ensures Pow(Pow(x, a) % n, b) % n == Pow(x, a * b) % n
  {
    PowMod(Pow(x, a), b, n);
    PowMul(x, a, b);
  }

  lemma PowReduce(b: int, k: nat, e: nat, m: int)
    requires m > 0 && k > 0 && Pow(b, k) % m == 1 % m
    ensures Pow(b, e) % m == Pow(b, e % k) % m
  {
    var q := e / k;
    assert e == k * q + e % k;
    PowAdd(b, k * q, e % k);
    PowMul(b, k, q);
    PowMod(Pow(b, k), q, m);
    ModOfMod(1, m);
    if m == 1 {
      assert Pow(b, e) % m == 0 == Pow(b, e % k) % m;
    } else {
      ModOfSmall(1, m);
      assert Pow(b, k) % m == 1;
      PowOne(q);
      ModOfSmall(1, m);
      assert Pow(Pow(b, k), q) % m == 1;
      ModMul(Pow(b, k * q), Pow(b, e % k), m);
      assert (Pow(b, k * q) % m) * (Pow(b, e % k) % m) == Pow(b, e % k) % m;
      ModOfMod(Pow(b, e % k), m);
    }
  }

  // ---------------------------------------------------------------------
  // Binary digits, most significant first

  /** Value of a most-significant-first bit string. */
  function BitsValue(bits: seq<bool>): nat
  {
    if |bits| == 0 then 0
    else 2 * BitsValue(bits[..|bits| - 1]) + (if bits[|bits| - 1] then 1 else 0)
  }

  /** The digits of Python's `bin(x)[2:]`: no leading zero, and a single
      zero digit for x == 0. */
  function Bin(x: nat): (bits: seq<bool>)
    ensures |bits| >= 1
    ensures x >= 1 ==> bits[0]
    ensures BitsValue(bits) == x
  {
    if x <= 1 then [x == 1]
    else
      var prefix := Bin(x / 2);
      assert (prefix + [x % 2 == 1])[..|prefix|] == prefix;
      prefix + [x % 2 == 1]
  }

  /** Appending a digit to the binary form doubles the number (plus the digit). */
  lemma BinAppend(m: nat)
    requires m >= 1
    ensures Bin(2 * m) == Bin(m) + [false]
    ensures Bin(2 * m + 1) == Bin(m) + [true]
  {
    assert (2 * m) / 2 == m && (2 * m) % 2 == 0;
    assert (2 * m + 1) / 2 == m && (2 * m + 1) % 2 == 1;
  }
}
