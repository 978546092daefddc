/** RSA.py, class `RSA`: a key object built from two numbers p and q, whose
    exponent pair is installed by `set_e`, and the bare exponentiations
    c = m^e mod n and m = c^d mod n (RSAEP and RSADP of section 5.1 of
    RFC 8017, without their range checks). The object is immutable here:
    `set_e` returns the updated key. */
module Rsa {
  import opened Arith
  import opened Euclid
  import opened Primes
  import opened Wrappers

  /** The exponent pair: public e and private d. */
  datatype Exponents = Exponents(e: nat, d: nat)

  /** The fields of an `RSA` object. `key` is `None` until `set_e` has run;
      the source then reads the missing attribute and fails. */
  datatype Key = Key(p: int, q: int, n: int, phi: int,
                     exponents: Option<Exponents>, publicKey: Option<(int, int)>)

  /** What every key reachable through the constructor and `set_e` keeps:
      n and phi come from p and q, the public key is published exactly when
      an exponent pair is installed and carries that e, and d inverts e
      modulo phi. */
  predicate Consistent(k: Key)
  {
    && k.n == k.p * k.q
    && k.phi == (k.p - 1) * (k.q - 1)
    && (k.exponents.Some? <==> k.publicKey.Some?)
    && (k.exponents.Some? ==>
          && k.publicKey.value == (k.n, k.exponents.value.e)
          && k.phi >= 1
          && (k.exponents.value.e * k.exponents.value.d) % k.phi == 1 % k.phi)
  }

  // ---------------------------------------------------------------------
  // Construction and set_e

  /** `RSA(p, q)`. */
  function New(p: int, q: int): (k: Key)
    ensures Consistent(k)
    ensures k.p == p && k.q == q && k.publicKey == None
  {
    Key(p, q, p * q, (p - 1) * (q - 1), None, None)
  }

  /** `set_e(e)`: the source asserts gcd(e, phi) == 1 and then stores the
      inverse of e modulo phi as d. */
  function SetE(k: Key, e: nat): (r: Key)
    requires k.phi >= 1 && Gcd(e, k.phi) == 1
    ensures r.exponents.Some? && r.exponents.value.e == e
    ensures (e * r.exponents.value.d) % k.phi == 1 % k.phi
    ensures k.phi >= 2 ==> r.exponents.value.d < k.phi
    ensures r.publicKey == Some((k.n, e))
    ensures r.p == k.p && r.q == k.q && r.n == k.n && r.phi == k.phi
    ensures Consistent(k) ==> Consistent(r)
  {
    var inv := ModInverse(e, k.phi);
    assert inv.Some? by {
      assert Reduced(e, k.phi) == e;
    }
    var d := inv.value;
    assert (e * d) % k.phi == 1 % k.phi by {
      if e == 0 {
        assert k.phi == 1;
      }
    }
    k.(exponents := Some(Exponents(e, d)), publicKey := Some((k.n, e)))
  }

  /** The private exponent is the only one in [0, phi) that inverts e:
      `set_e` could not have picked another. */
  lemma PrivateExponentUnique(k: Key, e: nat, d': int)
    requires k.phi >= 2 && Gcd(e, k.phi) == 1
    requires 0 <= d' < k.phi && (e * d') % k.phi == 1 % k.phi
    ensures SetE(k, e).exponents.value.d == d'
  {
    var d := SetE(k, e).exponents.value.d;
    SolveIsUnique(e, 1, k.phi, d);
    SolveIsUnique(e, 1, k.phi, d');
  }

  /** `get_public_key()`: (n, e), defined once `set_e` has run. */
  function GetPublicKey(k: Key): (r: (int, int))
    requires k.exponents.Some?
    ensures Consistent(k) ==> k.publicKey == Some(r)
  {
    (k.n, k.exponents.value.e)
  }

  // ---------------------------------------------------------------------
  // Encryption and decryption

  /** `encrypt(msg)`: msg^e mod n. Only the residue of msg modulo n
      matters, so messages outside [0, n) behave as their residue. */
  function Encrypt(k: Key, msg: int): (c: int)
    requires k.exponents.Some? && k.n >= 1
    ensures 0 <= c < k.n
    ensures c == Pow(msg % k.n, k.exponents.value.e) % k.n
  {
    PowMod(msg, k.exponents.value.e, k.n);
    Pow(msg, k.exponents.value.e) % k.n
  }

  /** `decrypt(ciphertext)`: ciphertext^d mod n. */
  function Decrypt(k: Key, ciphertext: int): (m: int)
    requires k.exponents.Some? && k.n >= 1
    ensures 0 <= m < k.n
    ensures m == Pow(ciphertext % k.n, k.exponents.value.d) % k.n
  {
    PowMod(ciphertext, k.exponents.value.d, k.n);
    Pow(ciphertext, k.exponents.value.d) % k.n
  }

  /** Raising to a power congruent to 1 modulo phi gives x back, whenever
      x^phi == 1 (mod n). That hypothesis is Euler's theorem for x coprime
      to n = p*q with p, q distinct primes, which this model does not prove. */
  lemma ExponentOne(x: int, t: nat, phi: int, n: int)
    requires n >= 1 && phi >= 1
    requires t % phi == 1 % phi
    requires Pow(x, phi) % n == 1 % n
    ensures Pow(x, t) % n == x % n
  {
    PowReduce(x, phi, t, n);
    if phi == 1 {
      assert Pow(x, 1) == x;
      assert Pow(x, t % phi) == 1;
    } else {
      ModOfSmall(1, phi);
      assert Pow(x, 1) == x;
    }
  }

  /** Decrypting an encryption raises the message to e*d, with no
      hypothesis on the message. */
  lemma DecryptEncrypt(k: Key, msg: int)
    requires k.exponents.Some? && k.n >= 1
    ensures Decrypt(k, Encrypt(k, msg)) == Pow(msg, k.exponents.value.e * k.exponents.value.d) % k.n
  {
    PowOfPowMod(msg, k.exponents.value.e, k.exponents.value.d, k.n);
  }

  /** Round trip: on a consistent key, decryption undoes encryption for
      every message whose phi-th power is 1 modulo n. */
  lemma RsaRoundTrip(k: Key, msg: int)
    requires Consistent(k) && k.exponents.Some? && k.n >= 1
    requires Pow(msg, k.phi) % k.n == 1 % k.n
    ensures Decrypt(k, Encrypt(k, msg)) == msg % k.n
  {
    var x := k.exponents.value;
    DecryptEncrypt(k, msg);
    ExponentOne(msg, x.e * x.d, k.phi, k.n);
  }

  /** And encryption undoes decryption, under the same hypothesis on the
      cipher text: the exponents play symmetric roles. */
  lemma RsaRoundTripInverse(k: Key, ciphertext: int)
    requires Consistent(k) && k.exponents.Some? && k.n >= 1
    requires Pow(ciphertext, k.phi) % k.n == 1 % k.n
    ensures Encrypt(k, Decrypt(k, ciphertext)) == ciphertext % k.n
  {
    var x := k.exponents.value;
    PowOfPowMod(ciphertext, x.d, x.e, k.n);
    assert x.d * x.e == x.e * x.d;
    ExponentOne(ciphertext, x.e * x.d, k.phi, k.n);
  }

  // ---------------------------------------------------------------------
  // generate_candidates

  /** The i-th number the source tests: i * phi + 1. */
  function Candidate(phi: nat, i: nat): nat
  {
    i * phi + 1
  }

  /** The i-th number is kept: `isprime` rejects it. */
  predicate Kept(phi: nat, i: nat)
  {
    !IsPrime(Candidate(phi, i))
  }

  /** `generate_candidates(amount)`: the numbers i * phi + 1 for i in
      1..amount that `isprime` rejects, in the order tried. */
  method GenerateCandidates(k: Key, amount: int) returns (candidates: seq<nat>)
    requires k.phi >= 0
    ensures |candidates| <= if amount > 0 then amount else 0
    ensures Ascending(candidates)
    ensures forall c :: c in candidates <==>
              exists i :: 1 <= i <= amount && Kept(k.phi, i) && c == Candidate(k.phi, i)
  {
    var phi: nat := k.phi;
    candidates := [];
    var i := 1;
    while i <= amount
      invariant 1 <= i && (amount >= 1 ==> i <= amount + 1) && (amount < 1 ==> i == 1)
      invariant |candidates| <= i - 1
      invariant Ascending(candidates)
      invariant forall j :: 0 <= j < |candidates| ==> candidates[j] < Candidate(phi, i)
      invariant forall c :: c in candidates <==>
                  exists i' :: 1 <= i' < i && Kept(phi, i') && c == Candidate(phi, i')
    {
      var num := Candidate(phi, i);
      // i * 0 + 1 == 1 is never rejected, so phi == 0 collects nothing
      assert phi == 0 ==> num == 1 && IsPrime(1);
      if !IsPrime(num) {
        candidates := candidates + [num];
      }
      assert Candidate(phi, i) <= Candidate(phi, i + 1);
      i := i + 1;
    }
    assert |candidates| <= i - 1 && (amount >= 1 ==> i - 1 == amount);
  }
}
