/** Primality, divisors, factorisation, multiplicative order and primitive
    roots (util.py). */
module Primes {
  import opened Arith
  import opened Euclid
  import opened Wrappers

  /** The mathematical notion the source's `isprime` approximates. */
  predicate TrulyPrime(n: int)
  {
    n >= 2 && forall i :: 2 <= i < n ==> n % i != 0
  }

  // ---------------------------------------------------------------------
  // isprime (util.py `isprime`); `int(pow(n, 0.5)) + 1` becomes `i * i <= n`

  /** Trial division by i, i + 1, ... while i * i <= n. */
  function NoDivisorFrom(n: nat, i: nat): bool
    requires i >= 2
    decreases n + 1 - i
  {
    if i * i > n then true
    else if n % i == 0 then false
    else
      MulMonotone(i, 1, i);
      NoDivisorFrom(n, i + 1)
  }

  /** util.py `isprime(n)`; a negative n makes the source take the square
      root of a negative number, so n is a nat. */
  predicate IsPrime(n: nat)
    ensures n >= 2 ==> (IsPrime(n) <==> TrulyPrime(n))
    ensures n < 2 ==> IsPrime(n)
  {
    TrialDivision(n);
    if n > 2 && n % 2 == 0 then false else NoDivisorFrom(n, 2)
  }

  /** For n >= 2, trial division from 2 finds no divisor exactly when n is
      prime, and an even n > 2 is not prime. */
  lemma TrialDivision(n: nat)
    ensures n >= 2 ==> (NoDivisorFrom(n, 2) <==> TrulyPrime(n))
    ensures n > 2 && n % 2 == 0 ==> !TrulyPrime(n)
  {
    if n >= 2 {
      if TrulyPrime(n) {
        NoDivisorFromComplete(n, 2);
      }
      if NoDivisorFrom(n, 2) && !TrulyPrime(n) {
        var d :| 2 <= d < n && n % d == 0;
        var e := SmallDivisor(n, d);
        NoDivisorFromSound(n, 2, e);
      }
    }
    if n > 2 && n % 2 == 0 {
      assert n % 2 == 0;
    }
  }

  lemma {:induction false} NoDivisorFromSound(n: nat, i: nat, j: int)
    requires i >= 2 && NoDivisorFrom(n, i)
    requires i <= j && j * j <= n
    ensures n % j != 0
    decreases n + 1 - i
  {
    if i < j {
      MulMonotone(i, 1, i);
      MulMonotone(j, i, j);
      MulMonotone(i, 1, j);
      NoDivisorFromSound(n, i + 1, j);
    }
  }

  lemma {:induction false} NoDivisorFromComplete(n: nat, i: nat)
    requires i >= 2
    requires forall j :: i <= j < n ==> n % j != 0
    ensures NoDivisorFrom(n, i)
    decreases n + 1 - i
  {
    if i * i <= n {
      MulMonotone(i, 1, i);
      if i == n {
        MulMonotone(i, 2, i);
      }
      NoDivisorFromComplete(n, i + 1);
    }
  }

  /** A composite n has a divisor d with d * d <= n. */
  lemma SmallDivisor(n: nat, d: int) returns (e: int)
    requires 2 <= d < n && n % d == 0
    ensures 2 <= e && e * e <= n && n % e == 0
  {
    var k := n / d;
    assert n == k * d;
    if k <= 1 {
      MulMonotone(1, k, d);
    }
    assert k >= 2;
    MultipleMod(d, k);
    assert n % k == 0;
    if d <= k {
      MulMonotone(k, d, d);
      e := d;
    } else {
      MulMonotone(d, k, k);
      e := k;
    }
  }

  /** A prime is coprime to every positive number it does not divide. */
  lemma PrimeCoprime(a: nat, p: nat)
    requires TrulyPrime(p) && a > 0 && a % p != 0
    ensures Gcd(a, p) == 1
  {
    var g := Gcd(a, p);
    DivisorAtMost(g, p);
  }

  /** A prime divides no number strictly between 0 and itself. */
  lemma PrimeCoprimeSmall(a: nat, p: nat)
    requires TrulyPrime(p) && 0 < a < p
    ensures Gcd(a, p) == 1
  {
    ModOfSmall(a, p);
    PrimeCoprime(a, p);
  }

  // ---------------------------------------------------------------------
  // find_divisors (util.py and find_generator.py)

  /** The divisors of n among i, i + 1, ..., n - 1, ascending. */
  function DivisorsFrom(n: int, i: int): (ds: seq<nat>)
    requires i >= 2
    ensures forall k :: 0 <= k < |ds| ==> i <= ds[k] < n && n % ds[k] == 0
    ensures forall k, l :: 0 <= k < l < |ds| ==> ds[k] < ds[l]
    ensures forall d :: i <= d < n && n % d == 0 ==> d in ds
    decreases n - i
  {
    if i >= n then []
    else if n % i == 0 then [i] + DivisorsFrom(n, i + 1)
    else DivisorsFrom(n, i + 1)
  }

  /** util.py `find_divisors(n)`: the d in [2, n) dividing n, ascending. */
  function FindDivisors(n: int): (ds: seq<nat>)
    ensures forall k :: 0 <= k < |ds| ==> 2 <= ds[k] < n && n % ds[k] == 0
    ensures forall k, l :: 0 <= k < l < |ds| ==> ds[k] < ds[l]
    ensures forall d :: 2 <= d < n && n % d == 0 ==> d in ds
  {
    DivisorsFrom(n, 2)
  }

  // ---------------------------------------------------------------------
  // prime_factorization (util.py)

  function Product(s: seq<int>): int
  {
    if |s| == 0 then 1 else s[0] * Product(s[1..])
  }

  /** An even number dividing n forces 2 to divide n. */
  lemma EvenDivisor(k: int, n: int)
    requires k >= 2 && k % 2 == 0 && n % k == 0
    ensures n % 2 == 0
  {
    DividesTrans(2, k, n);
  }

  /** The source's trial-division loop from divisor d on: d is 2 or odd, and
      no number in [2, d) divides n. */
  function FactorFrom(n: int, d: int): (fs: seq<int>)
    requires n >= 1 && d >= 2 && (d == 2 || d % 2 == 1)
    requires forall i :: 2 <= i < d ==> n % i != 0
    ensures Product(fs) == n
    ensures forall k :: 0 <= k < |fs| ==> d <= fs[k] && TrulyPrime(fs[k])
    ensures forall k :: 0 < k < |fs| ==> fs[k - 1] <= fs[k]
    decreases n, n - d
  {
    if n <= 1 then []
    else if n % d == 0 then
      var m := n / d;
      assert n == m * d;
      FactorStep(n, d, m);
      var rest := FactorFrom(m, d);
      assert Product([d] + rest) == d * Product(rest);
      [d] + rest
    else
      var d' := d + 1 + d % 2;
      NextTrialDivisor(n, d);
      FactorFrom(n, d')
  }

  lemma FactorStep(n: int, d: int, m: int)
    requires n > 1 && d >= 2 && n == m * d
    requires forall i :: 2 <= i < d ==> n % i != 0
    ensures 1 <= m < n
    ensures forall i :: 2 <= i < d ==> m % i != 0
    ensures TrulyPrime(d)
  {
    CofactorRange(n, d, m);
    forall i | 2 <= i < d
      ensures m % i != 0
    {
      NotDividingFactor(n, d, m, i);
    }
    forall i | 2 <= i < d
      ensures d % i != 0
    {
      NotDividingFactor(n, m, d, i);
    }
  }

  lemma CofactorRange(n: int, d: int, m: int)
    requires n > 1 && d >= 2 && n == m * d
    ensures 1 <= m < n
  {
    if m <= 0 { MulMonotone(0, m, d); }
    MulMonotone(d, 1, m);
  }

  /** A divisor of a factor of n divides n. */
  lemma NotDividingFactor(n: int, d: int, m: int, i: int)
    requires n == m * d && i >= 2 && n % i != 0 && m > 0
    ensures m % i != 0
  {
    if m % i == 0 {
      MultipleMod(d, m);
      assert Divides(m, n);
      DividesTrans(i, m, n);
    }
  }

  lemma NextTrialDivisor(n: int, d: int)
    requires n > 1 && d >= 2 && (d == 2 || d % 2 == 1) && n % d != 0
    requires forall i :: 2 <= i < d ==> n % i != 0
    ensures forall i :: 2 <= i < d + 1 + d % 2 ==> n % i != 0
    ensures d + 1 + d % 2 <= n
  {
    DividesSelf(n);
    assert d != n;
    if d % 2 == 1 {
      assert n % 2 != 0;
      if n % (d + 1) == 0 {
        EvenDivisor(d + 1, n);
      }
      if n == d + 1 {
        DividesSelf(n);
        EvenDivisor(d + 1, n);
      }
    }
  }

  /** util.py `prime_factorization(n)`: [1, n] when `isprime` accepts n,
      otherwise the prime factors in non-decreasing order. */
  function PrimeFactorization(n: nat): (fs: seq<int>)
    ensures IsPrime(n) ==> fs == [1, n]
    ensures n >= 1 ==> Product(fs) == n
    ensures !IsPrime(n) ==> forall k :: 0 <= k < |fs| ==> TrulyPrime(fs[k])
    ensures !IsPrime(n) ==> forall k :: 0 < k < |fs| ==> fs[k - 1] <= fs[k]
  {
    if IsPrime(n) then
      assert Product([1, n]) == 1 * Product([n]) == n * Product([]);
      [1, n]
    else
      FactorFrom(n, 2)
  }

  // ---------------------------------------------------------------------
  // get_order_of_modulo (util.py)

  /** a^(i+1) mod n, the value the source tests at step i. */
  function Residue(a: int, n: int, i: nat): int
    requires n >= 1
  {
    Pow(a, i + 1) % n
  }

  /** The source's `while i < n` loop from step i. `None` is the source's
      "No solutions" assertion (a^(i+1) mod n == 0); `Some(0)` means the
      loop ran out. */
  function OrderFrom(a: int, n: int, i: nat): (r: Option<nat>)
    requires i >= 1
    ensures r.Some? && r.value > 0 ==>
      i <= r.value < n && Residue(a, n, r.value) == a && Residue(a, n, r.value) != 0
      && forall j :: i <= j < r.value ==> Residue(a, n, j) != 0 && Residue(a, n, j) != a
    ensures r == Some(0) ==>
      forall j :: i <= j < n ==> Residue(a, n, j) != 0 && Residue(a, n, j) != a
    ensures r.None? ==>
      exists j :: i <= j < n && Residue(a, n, j) == 0
        && forall j' :: i <= j' < j ==> Residue(a, n, j') != 0 && Residue(a, n, j') != a
    decreases n - i
  {
    if i >= n then Some(0)
    else if Residue(a, n, i) == 0 then None
    else if Residue(a, n, i) == a then Some(i)
    else OrderFrom(a, n, i + 1)
  }

  /** util.py `get_order_of_modulo(a, n)`: the least i >= 1 with
      a^(i+1) mod n == a, 0 when there is none below n. */
  function OrderOfModulo(a: int, n: int): (r: Option<nat>)
    ensures r.Some? && r.value > 0 ==>
      r.value < n && Residue(a, n, r.value) == a && Residue(a, n, r.value) != 0
      && forall j :: 1 <= j < r.value ==> Residue(a, n, j) != 0 && Residue(a, n, j) != a
    ensures r == Some(0) ==>
      forall j :: 1 <= j < n ==> Residue(a, n, j) != 0 && Residue(a, n, j) != a
    ensures r.None? ==>
      exists j :: 1 <= j < n && Residue(a, n, j) == 0
        && forall j' :: 1 <= j' < j ==> Residue(a, n, j') != 0 && Residue(a, n, j') != a
  {
    OrderFrom(a, n, 1)
  }

  /** The first example of the source's docstring. */
  lemma OrderOfTwoModThirtyOne()
    ensures OrderOfModulo(2, 31) == Some(5)
  {
    assert Pow(2, 2) == 4 && Pow(2, 3) == 8 && Pow(2, 4) == 16;
    assert Pow(2, 5) == 32 && Pow(2, 6) == 64;
    assert OrderFrom(2, 31, 5) == Some(5);
    assert OrderFrom(2, 31, 3) == OrderFrom(2, 31, 4) == Some(5);
    assert OrderFrom(2, 31, 1) == OrderFrom(2, 31, 2) == Some(5);
  }

  /** The second example of the source's docstring. */
  lemma OrderOfThreeModSeven()
    ensures OrderOfModulo(3, 7) == Some(6)
  {
    assert Pow(3, 2) == 9 && Pow(3, 3) == 27 && Pow(3, 4) == 81;
    assert Pow(3, 5) == 243 && Pow(3, 6) == 729 && Pow(3, 7) == 2187;
    assert OrderFrom(3, 7, 6) == Some(6);
    assert OrderFrom(3, 7, 4) == OrderFrom(3, 7, 5) == Some(6);
    assert OrderFrom(3, 7, 2) == OrderFrom(3, 7, 3) == Some(6);
    assert OrderFrom(3, 7, 1) == Some(6);
  }

  // ---------------------------------------------------------------------
  // get_smallest_generator / find_several_generators (util.py)

  /** No listed divisor d of p - 1 gives i^d mod p == 1 (the source's
      inner `for ... else`). */
  predicate NoDivisorHit(i: int, p: int, divs: seq<nat>)
    requires p >= 1
  {
    forall k :: 0 <= k < |divs| ==> Pow(i, divs[k]) % p != 1
  }

  /** Candidate accepted by `get_smallest_generator`. */
  predicate IsSmallestCandidate(i: int, p: nat)
    requires p >= 2
  {
    NoDivisorHit(i, p, FindDivisors(p - 1)) && Pow(i, p - 1) % p == 1
  }

  function SmallestGeneratorFrom(p: nat, i: nat): (r: Option<nat>)
    requires p >= 2 && i >= 2
    ensures r.Some? ==> i <= r.value < p && IsSmallestCandidate(r.value, p)
    ensures r.Some? ==> forall j :: i <= j < r.value ==> !IsSmallestCandidate(j, p)
    ensures r.None? ==> forall j :: i <= j < p ==> !IsSmallestCandidate(j, p)
    decreases p - i
  {
    if i >= p then None
    else if IsSmallestCandidate(i, p) then Some(i)
    else SmallestGeneratorFrom(p, i + 1)
  }

  /** util.py `get_smallest_generator(p)`: the least i in [2, p) passing
      the divisor test and i^(p-1) mod p == 1; `None` when the loop falls
      off its end. */
  function SmallestGenerator(p: nat): (r: Option<nat>)
    requires IsPrime(p)
    ensures r.Some? ==> 2 <= r.value < p && IsSmallestCandidate(r.value, p)
    ensures r.Some? ==> forall j :: 2 <= j < r.value ==> !IsSmallestCandidate(j, p)
    ensures r.None? ==> p < 2 || forall j :: 2 <= j < p ==> !IsSmallestCandidate(j, p)
  {
    if p < 2 then None else SmallestGeneratorFrom(p, 2)
  }

  predicate Ascending(s: seq<nat>)
  {
    forall k, l :: 0 <= k < l < |s| ==> s[k] < s[l]
  }

  /** i is a value the collection loop keeps. */
  predicate Collected(j: int, p: nat, divs: seq<nat>)
    requires p >= 2
  {
    2 <= j < p - 1 && NoDivisorHit(j, p, divs)
  }

  /** Every collected value below the last element of s is in s. */
  ghost predicate Gapless(s: seq<nat>, p: nat, divs: seq<nat>)
    requires p >= 2
  {
    |s| > 0 ==> forall j :: j < s[|s| - 1] && Collected(j, p, divs) ==> j in s
  }

  /** The collection loop's invariant before candidate i: acc holds, in
      ascending order, exactly the collected values below i. */
  ghost predicate Scanned(p: nat, divs: seq<nat>, i: nat, acc: seq<nat>)
  {
    p >= 2 && i >= 2 && Ascending(acc)
    && (forall k :: 0 <= k < |acc| ==> acc[k] < i && Collected(acc[k], p, divs))
    && (forall j :: j < i && Collected(j, p, divs) ==> j in acc)
  }

  /** The source's `for i in range(2, p - 1)` collection loop, from i with
      the generators found so far in acc. */
  function SeveralFrom(p: nat, divs: seq<nat>, amount: int, i: nat, acc: seq<nat>): (r: seq<nat>)
    requires Scanned(p, divs, i, acc)
    requires amount >= 1 ==> |acc| < amount
    ensures acc <= r && Ascending(r)
    ensures forall k :: 0 <= k < |r| ==> Collected(r[k], p, divs)
    ensures amount >= 1 ==> |r| <= amount
    ensures |r| != amount ==> forall j :: Collected(j, p, divs) ==> j in r
    ensures Gapless(r, p, divs)
    decreases p - i
  {
    if i >= p - 1 then
      PrefixComplete(p, divs, i, acc);
      acc
    else
      var acc' := if Collected(i, p, divs) then acc + [i] else acc;
      SeveralStep(p, divs, amount, i, acc, acc');
      if |acc'| == amount then acc'
      else
        SeveralFrom(p, divs, amount, i + 1, acc')
  }

  lemma PrefixComplete(p: nat, divs: seq<nat>, i: nat, acc: seq<nat>)
    requires Scanned(p, divs, i, acc)
    ensures Gapless(acc, p, divs)
    ensures i >= p - 1 ==> forall j :: Collected(j, p, divs) ==> j in acc
  {
    if |acc| > 0 {
      var last := acc[|acc| - 1];
      assert last < i;
      forall j | j < last && Collected(j, p, divs)
        ensures j in acc
      {
      }
    }
  }

  /** One iteration of the collection loop keeps its invariant. */
  lemma SeveralStep(p: nat, divs: seq<nat>, amount: int, i: nat, acc: seq<nat>, acc': seq<nat>)
    requires Scanned(p, divs, i, acc) && i < p - 1
    requires amount >= 1 ==> |acc| < amount
    requires acc' == if Collected(i, p, divs) then acc + [i] else acc
    ensures acc <= acc' && Scanned(p, divs, i + 1, acc')
    ensures amount >= 1 ==> |acc'| <= amount
    ensures Gapless(acc', p, divs)
  {
    if |acc'| > 0 {
      forall j | j < acc'[|acc'| - 1] && Collected(j, p, divs)
        ensures j in acc'
      {
        assert acc'[|acc'| - 1] <= i;
      }
    }
  }

  /** util.py `find_several_generators(p, amount)`: ascending values in
      [2, p - 1) passing the divisor test, stopping once `amount` are found. */
  function SeveralGenerators(p: nat, amount: int): (r: seq<nat>)
    requires IsPrime(p)
    ensures Ascending(r)
    ensures forall k :: 0 <= k < |r| ==> 2 <= r[k] < p - 1 && NoDivisorHit(r[k], p, FindDivisors(p - 1))
    ensures amount >= 1 ==> |r| <= amount
    ensures p >= 2 && |r| != amount ==> forall j :: Collected(j, p, FindDivisors(p - 1)) ==> j in r
    ensures p >= 2 && |r| > 0 ==> forall j :: j < r[|r| - 1] && Collected(j, p, FindDivisors(p - 1)) ==> j in r
  {
    if p < 2 then []
    else SeveralFrom(p, FindDivisors(p - 1), amount, 2, [])
  }
}
