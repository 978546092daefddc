/** find_generator.py: the loop-by-loop versions of the divisor listing and
    the primitive-root searches. Each method follows the source's loops and
    is shown to coincide with the util.py definitions in module Primes. The
    file calls `isprime` without importing it; the model uses util.py's. */
module FindGenerator {
  import opened Arith
  import opened Wrappers
  import opened Primes

  /** find_generator.py `find_divisors(n)`: the d in [2, n) dividing n,
      ascending, built by a `for` loop. */
  method FindDivisorsLoop(n: int) returns (ds: seq<nat>)
    ensures forall k :: 0 <= k < |ds| ==> 2 <= ds[k] < n && n % ds[k] == 0
    ensures forall k, l :: 0 <= k < l < |ds| ==> ds[k] < ds[l]
    ensures forall d :: 2 <= d < n && n % d == 0 ==> d in ds
    ensures ds == FindDivisors(n)
  {
    ds := [];
    var i := 2;
    while i < n
      invariant 2 <= i && (n >= 2 ==> i <= n)
      invariant ds + DivisorsFrom(n, i) == DivisorsFrom(n, 2)
    {
      if n % i == 0 {
        ds := ds + [i];
      }
      i := i + 1;
    }
    assert DivisorsFrom(n, i) == [];
    assert ds == ds + DivisorsFrom(n, i) == FindDivisors(n);
  }

  /** The source's inner `for d in divisors: ... break`: whether some listed
      divisor d gives i^d mod p == 1. */
  method DivisorHit(i: int, p: int, divs: seq<nat>) returns (hit: bool)
    requires p >= 1
    ensures hit <==> !NoDivisorHit(i, p, divs)
  {
    hit := false;
    var k := 0;
    while k < |divs| && !hit
      invariant 0 <= k <= |divs|
      invariant !hit ==> forall l :: 0 <= l < k ==> Pow(i, divs[l]) % p != 1
      invariant hit ==> 0 < k && Pow(i, divs[k - 1]) % p == 1
    {
      if Pow(i, divs[k]) % p == 1 {
        hit := true;
      }
      k := k + 1;
    }
  }

  /** find_generator.py `find_smallest_generator(p)`: the least i in [2, p)
      that no listed divisor of p - 1 sends to 1 and with i^(p-1) mod p == 1;
      `None` when the `while` loop falls off its end. */
  method FindSmallestGenerator(p: nat) returns (g: Option<nat>)
    requires IsPrime(p)
    ensures g.Some? ==> 2 <= g.value < p && IsSmallestCandidate(g.value, p)
    ensures g.Some? ==> forall j :: 2 <= j < g.value ==> !IsSmallestCandidate(j, p)
    ensures g.None? ==> p < 2 || forall j :: 2 <= j < p ==> !IsSmallestCandidate(j, p)
    ensures g == SmallestGenerator(p)
  {
    if p < 2 {
      return None;
    }
    var divs := FindDivisorsLoop(p - 1);
    var i := 2;
    while i < p
      invariant 2 <= i <= p
      invariant SmallestGeneratorFrom(p, i) == SmallestGenerator(p)
    {
      var hit := DivisorHit(i, p, divs);
      if !hit && Pow(i, p - 1) % p == 1 {
        return Some(i);
      }
      i := i + 1;
    }
    return None;
  }

  /** find_generator.py `find_several_generators(p, amount)`: the values
      of [2, p - 1) no listed divisor sends to 1, ascending, stopping as soon
      as `amount` have been found. */
  method FindSeveralGenerators(p: nat, amount: int) returns (gens: seq<nat>)
    requires IsPrime(p)
    ensures Ascending(gens)
    ensures forall k :: 0 <= k < |gens| ==> 2 <= gens[k] < p - 1 && NoDivisorHit(gens[k], p, FindDivisors(p - 1))
    ensures amount >= 1 ==> |gens| <= amount
    ensures p >= 2 && |gens| != amount ==> forall j :: Collected(j, p, FindDivisors(p - 1)) ==> j in gens
    ensures p >= 2 && |gens| > 0 ==>
      forall j :: j < gens[|gens| - 1] && Collected(j, p, FindDivisors(p - 1)) ==> j in gens
    ensures gens == SeveralGenerators(p, amount)
  {
    if p < 2 {
      return [];
    }
    var divs := FindDivisorsLoop(p - 1);
    gens := SeveralLoop(p, divs, amount);
  }

  /** The loops of `find_several_generators`, over the listed divisors. */
  method SeveralLoop(p: nat, divs: seq<nat>, amount: int) returns (gens: seq<nat>)
    requires p >= 2
    ensures gens == SeveralFrom(p, divs, amount, 2, [])
  {
    gens := [];
    var i := 2;
    while i < p - 1
      invariant Scanned(p, divs, i, gens)
      invariant amount >= 1 ==> |gens| < amount
      invariant SeveralFrom(p, divs, amount, i, gens) == SeveralFrom(p, divs, amount, 2, [])
      decreases p - i
    {
      var done;
      gens, done := SeveralIteration(p, divs, amount, i, gens);
      if done {
        return;
      }
      i := i + 1;
    }
    SeveralDone(p, divs, amount, i, gens);
  }

  /** Once i reaches p - 1 the recursive definition has nothing left to add. */
  lemma SeveralDone(p: nat, divs: seq<nat>, amount: int, i: nat, acc: seq<nat>)
    requires Scanned(p, divs, i, acc) && i >= p - 1
    requires amount >= 1 ==> |acc| < amount
    ensures SeveralFrom(p, divs, amount, i, acc) == acc
  {
  }

  /** One pass of the outer `for` loop: i is kept when no listed divisor
      sends it to 1, and the search stops once `amount` are kept. */
  method SeveralIteration(p: nat, divs: seq<nat>, amount: int, i: nat, gens: seq<nat>)
    returns (gens': seq<nat>, done: bool)
    requires Scanned(p, divs, i, gens) && i < p - 1
    requires amount >= 1 ==> |gens| < amount
    ensures done <==> |gens'| == amount
    ensures Scanned(p, divs, i + 1, gens')
    ensures done ==> SeveralFrom(p, divs, amount, i, gens) == gens'
    ensures !done ==> (amount >= 1 ==> |gens'| < amount)
    ensures !done ==> SeveralFrom(p, divs, amount, i, gens) == SeveralFrom(p, divs, amount, i + 1, gens')
  {
    var hit := DivisorHit(i, p, divs);
    gens' := if !hit then gens + [i] else gens;
    assert !hit <==> Collected(i, p, divs);
    SeveralUnfold(p, divs, amount, i, gens, gens');
    done := |gens'| == amount;
  }

  /** One step of the loop is one step of the recursive definition. */
  lemma SeveralUnfold(p: nat, divs: seq<nat>, amount: int, i: nat, acc: seq<nat>, acc': seq<nat>)
    requires Scanned(p, divs, i, acc) && i < p - 1
    requires amount >= 1 ==> |acc| < amount
    requires acc' == if Collected(i, p, divs) then acc + [i] else acc
    ensures Scanned(p, divs, i + 1, acc')
    ensures |acc'| == amount ==> SeveralFrom(p, divs, amount, i, acc) == acc'
    ensures |acc'| != amount ==> amount >= 1 ==> |acc'| < amount
    ensures |acc'| != amount ==>
      SeveralFrom(p, divs, amount, i, acc) == SeveralFrom(p, divs, amount, i + 1, acc')
  {
    SeveralStep(p, divs, amount, i, acc, acc');
  }
}
