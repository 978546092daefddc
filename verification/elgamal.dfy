/** EIGamal.py: ElGamal encryption over Z_p with a caller-supplied secret
    key k, decryption with the receiver's private key CB, and the ElGamal
    signature with its verification. */
module ElGamal {
  import opened Arith
  import opened Euclid
  import opened Wrappers

  /** The pair (C, H) the sender transmits: the masked message and the hint
      g^k. */
  datatype CipherText = CipherText(c: int, h: int)

  /** The triple (M, X, Y): the message and its signature. */
  datatype Signed = Signed(m: int, x: int, y: int)

  // ---------------------------------------------------------------------
  // Encryption

  /** `to_EIGamal_Encryption(p, g, m, dB, secret_key=k)`: with a supplied key
      a mask dB^k == 1 (mod p) makes the source print a warning and return
      nothing. */
  function Encrypt(p: int, g: int, m: int, dB: int, k: nat): (r: Option<CipherText>)
    requires p >= 1
    ensures r.None? <==> Pow(dB, k) % p == 1
    ensures r.Some? ==> 0 <= r.value.c < p && 0 <= r.value.h < p
    ensures r.Some? ==> r.value.c % p == (m * Pow(dB, k)) % p
    ensures r.Some? ==> r.value.h == Pow(g, k) % p
  {
    var mask := Pow(dB, k) % p;
    if mask == 1 then None
    else
      ModMul(m, Pow(dB, k), p);
      ModOfMod(m * mask, p);
      Some(CipherText(m * mask % p, Pow(g, k) % p))
  }

  /** `to_EIGamal_decryption((C, H), p, CB)`: C * H^(p-1-CB) mod p. The
      source takes a negative power, a float, when CB > p - 1. */
  function Decrypt(ct: CipherText, p: int, cb: int): (m: int)
    requires p >= 1 && cb <= p - 1
    ensures 0 <= m < p
    ensures m == ((ct.c % p) * Pow(ct.h % p, p - 1 - cb)) % p
  {
    var e: nat := p - 1 - cb;
    var opener := Pow(ct.h, e) % p;
    PowMod(ct.h, e, p);
    ModMul(ct.c, Pow(ct.h, e), p);
    ModMul(ct.c % p, Pow(ct.h % p, e), p);
    ModOfMod(ct.c, p);
    ct.c * opener % p
  }

  /** Decryption multiplies the message by (g^(p-1))^k, whatever g and p
      are, when the receiver's public key is dB = g^CB mod p. */
  lemma DecryptEncrypt(p: int, g: int, m: int, cb: nat, k: nat)
    requires p >= 1 && cb <= p - 1
    requires Encrypt(p, g, m, Pow(g, cb) % p, k).Some?
    ensures Decrypt(Encrypt(p, g, m, Pow(g, cb) % p, k).value, p, cb)
            == (m * Pow(Pow(g, p - 1), k)) % p
  {
    var ct := Encrypt(p, g, m, Pow(g, cb) % p, k).value;
    var e: nat := p - 1 - cb;
    MaskedMessage(p, g, m, cb, k);
    PowOfPowMod(g, k, e, p);
    MaskAndOpener(p, ct.c, Pow(ct.h, e) % p, m, Pow(g, cb * k), Pow(g, k * e));
    ExponentSplit(g, cb, e, k, p);
  }

  /** The masked message is m * g^(CB*k) modulo p. */
  lemma MaskedMessage(p: int, g: int, m: int, cb: nat, k: nat)
    requires p >= 1
    requires Encrypt(p, g, m, Pow(g, cb) % p, k).Some?
    ensures Encrypt(p, g, m, Pow(g, cb) % p, k).value.c % p == (m * Pow(g, cb * k)) % p
  {
    PowOfPowMod(g, cb, k, p);
    ModMul(m, Pow(Pow(g, cb) % p, k), p);
    ModMul(m, Pow(g, cb * k), p);
  }

  /** Mask and opener exponents add up to k * (p - 1). */
  lemma ExponentSplit(g: int, cb: nat, e: nat, k: nat, p: int)
    requires cb + e == p - 1
    ensures Pow(g, cb * k) * Pow(g, k * e) == Pow(Pow(g, p - 1), k)
  {
    PowAdd(g, cb * k, k * e);
    assert cb * k + k * e == (cb + e) * k by {
      assert k * e == e * k;
    }
    PowMul(g, p - 1, k);
  }

  /** C == m*a and opener == b (mod p) give C * opener == m*(a*b). */
  lemma MaskAndOpener(p: int, c: int, opener: int, m: int, a: int, b: int)
    requires p >= 1
    requires c % p == (m * a) % p && opener == b % p
    ensures (c * opener) % p == (m * (a * b)) % p
  {
    ModMul(c, b, p);
    ModMulLeft(c, b, p);
    ModMulLeft(m * a, b, p);
    assert (m * a) * b == m * (a * b);
  }

  /** Round trip: when g^(p-1) == 1 (mod p), as Fermat's little theorem gives
      for a prime p not dividing g, decryption recovers m mod p. */
  lemma ElGamalRoundTrip(p: int, g: int, m: int, cb: nat, k: nat)
    requires p >= 1 && cb <= p - 1
    requires Pow(g, p - 1) % p == 1 % p
    requires Encrypt(p, g, m, Pow(g, cb) % p, k).Some?
    ensures Decrypt(Encrypt(p, g, m, Pow(g, cb) % p, k).value, p, cb) == m % p
  {
    DecryptEncrypt(p, g, m, cb, k);
    var f := Pow(g, p - 1);
    assert Pow(f, k) % p == 1 % p by {
      PowMod(f, k, p);
      PowMod(1, k, p);
      PowOne(k);
    }
    ModMul(m, Pow(f, k), p);
    ModMul(m, 1, p);
  }

  // ---------------------------------------------------------------------
  // Signature

  /** `to_EIGamal_DigitalSignature_as_sender(p, g, r, R, M)`: X = g^R mod p
      and Y = (M - r*X) * R^-1 mod (p-1); the source asserts
      gcd(R, p-1) == 1. */
  function Sign(p: int, g: int, r: int, rr: nat, m: int): (s: Signed)
    requires p >= 2 && Gcd(rr, p - 1) == 1
    ensures s.m == m
    ensures 0 <= s.x < p && 0 <= s.y < p - 1
    ensures s.x == Pow(g, rr) % p
    ensures (rr * s.y) % (p - 1) == (m - r * s.x) % (p - 1)
  {
    var x := Pow(g, rr) % p;
    var inv := ModInverse(rr, p - 1);
    assert inv.Some? by {
      assert Reduced(rr, p - 1) == rr;
    }
    var y := (m - r * x) * inv.value % (p - 1);
    SignEquation(rr, m - r * x, p - 1, inv.value, y);
    Signed(m, x, y)
  }

  /** The equation Y solves: R * Y == M - r*X (mod p-1). */
  lemma SignEquation(rr: nat, b: int, q: int, inv: int, y: int)
    requires q >= 1 && Gcd(rr, q) == 1
    requires ModInverse(rr, q) == Some(inv) && y == b * inv % q
    ensures (rr * y) % q == b % q
  {
    if rr == 0 {
      assert q == 1;
    } else {
      MulInverseSolves(rr, b, q, inv);
    }
  }

  /** `is_message_from_A_EIGamal_DigitalSignature_as_receiver((M, X, Y), p,
      g, K)`: K^X * X^Y == g^M (mod p). Negative components make the source
      compute with floats. The verdict depends on K, g and the base X only
      through their residues modulo p; the exponents are used as given. */
  predicate Verify(s: Signed, p: int, g: int, kk: int)
    requires p >= 1 && s.m >= 0 && s.x >= 0 && s.y >= 0
    ensures Verify(s, p, g, kk) <==>
      (Pow(kk % p, s.x) * Pow(s.x % p, s.y)) % p == Pow(g % p, s.m) % p
  {
    VerifyResidues(p, g, kk, s.m, s.x, s.y);
    (Pow(kk, s.x) * Pow(s.x, s.y)) % p == Pow(g, s.m) % p
  }

  /** Reducing the bases of the verification equation modulo p changes
      neither side modulo p. */
  lemma VerifyResidues(p: int, g: int, kk: int, m: nat, x: nat, y: nat)
    requires p >= 1
    ensures (Pow(kk % p, x) * Pow(x % p, y)) % p == (Pow(kk, x) * Pow(x, y)) % p
    ensures Pow(g % p, m) % p == Pow(g, m) % p
  {
    PowMod(kk, x, p);
    PowMod(x, y, p);
    PowMod(g, m, p);
    ModMul(Pow(kk % p, x), Pow(x % p, y), p);
    ModMul(Pow(kk, x), Pow(x, y), p);
  }

  /** Signing with r and R and verifying against K = g^r mod p always
      succeeds when g^(p-1) == 1 (mod p). */
  lemma SignVerifies(p: int, g: int, r: nat, rr: nat, m: nat)
    requires p >= 2 && Gcd(rr, p - 1) == 1
    requires Pow(g, p - 1) % p == 1 % p
    ensures Verify(Sign(p, g, r, rr, m), p, g, Pow(g, r) % p)
  {
    var s := Sign(p, g, r, rr, m);
    var x: nat, y: nat := s.x, s.y;
    var t := ExponentSum(r, x, rr, y);
    VerifiedPower(p, g, r, rr, x, y);
    SignedExponent(p - 1, r, x, rr, y, m);
    PowPeriodic(g, p - 1, t, m, p);
  }

  /** r*X + R*Y, the exponent of g the verifier recomputes. */
  function ExponentSum(r: nat, x: nat, rr: nat, y: nat): (t: nat)
    ensures t == r * x + rr * y
  {
    MulMonotone(r, 0, x);
    MulMonotone(rr, 0, y);
    r * x + rr * y
  }

  /** K^X * X^Y == g^(r*X + R*Y) (mod p) for K = g^r mod p, X = g^R mod p. */
  lemma VerifiedPower(p: int, g: int, r: nat, rr: nat, x: nat, y: nat)
    requires p >= 1 && x == Pow(g, rr) % p
    ensures (Pow(Pow(g, r) % p, x) * Pow(x, y)) % p == Pow(g, ExponentSum(r, x, rr, y)) % p
  {
    var kk := Pow(g, r) % p;
    PowOfPowMod(g, r, x, p);
    PowOfPowMod(g, rr, y, p);
    ModMul(Pow(kk, x), Pow(x, y), p);
    ModMul(Pow(g, r * x), Pow(g, rr * y), p);
    PowAdd(g, r * x, rr * y);
  }

  /** R*Y == M - r*X (mod q) makes r*X + R*Y == M (mod q). */
  lemma SignedExponent(q: int, r: nat, x: nat, rr: nat, y: nat, m: int)
    requires q >= 1 && (rr * y) % q == (m - r * x) % q
    ensures ExponentSum(r, x, rr, y) % q == m % q
  {
    SumCongruent(r * x, rr * y, m, q);
  }

  lemma SumCongruent(a: int, b: int, m: int, q: int)
    requires q >= 1 && b % q == (m - a) % q
    ensures (a + b) % q == m % q
  {
    CongruentIff(b, m - a, q);
    assert (a + b) - m == b - (m - a);
    CongruentIff(a + b, m, q);
  }
}
