/** The two square-and-multiply loops of util.py. Both walk the digits of
    Python's `bin(x)[2:]`; the left-to-right one is used by the elliptic-curve
    square root and is therefore a function, the right-to-left one is a
    method with its loop. */
module ModExp {
  import opened Arith

  /** The state after the left-to-right loop has consumed `bits`. */
  function LeftToRight(a: int, bits: seq<bool>, p: int): (y: int)
    requires p >= 1
    ensures y % p == Pow(a, BitsValue(bits)) % p
    ensures |bits| >= 1 ==> 0 <= y < p
    ensures |bits| == 0 ==> y == 1
  {
    if |bits| == 0 then 1
    else
      var prefix := bits[..|bits| - 1];
      var y := LeftToRight(a, prefix, p);
      var sq := y * y % p;
      var bit := bits[|bits| - 1];
      var r := if bit then sq * a % p else sq;
      LeftStep(a, y, p, BitsValue(prefix), bit);
      r
  }

  /** Squaring, then multiplying by a on a 1 digit, appends that digit to the
      exponent. */
  lemma LeftStep(a: int, y: int, p: int, v: nat, bit: bool)
    requires p >= 1 && y % p == Pow(a, v) % p
    ensures (if bit then (y * y % p) * a % p else y * y % p) % p
            == Pow(a, 2 * v + (if bit then 1 else 0)) % p
  {
    var P := Pow(a, v);
    ModMul(y, y, p);
    ModMul(P, P, p);
    PowSquare(a, v);
    assert (y * y) % p == Pow(a, 2 * v) % p;
    ModOfMod(y * y, p);
    if bit {
      ModMulLeft(y * y, a, p);
      ModMulLeft(Pow(a, 2 * v), a, p);
      assert Pow(a, 2 * v + 1) == a * Pow(a, 2 * v);
      ModOfMod((y * y % p) * a, p);
    }
  }

  /** util.py `get_modular_exponentiation_from_left(a, x, p)`: a^x mod p. */
  function ModExpLeft(a: int, x: nat, p: int): (y: int)
    requires p >= 1
    ensures y == Pow(a, x) % p
  {
    var y := LeftToRight(a, Bin(x), p);
    ModOfSmall(y, p);
    y
  }

  /** util.py `get_modular_exponentiation_from_right(a, x, p)`: a^x mod p for
      x >= 1. For x == 0 the source never reduces its initial 1. */
  method ModExpRight(a: int, x: nat, p: int) returns (y: int)
    requires p >= 1
    ensures x >= 1 ==> y == Pow(a, x) % p
    ensures x == 0 ==> y == 1
  {
    var bits := Bin(x);
    assert bits[..|bits|] == bits;
    y := 1;
    var s := a;
    var j := 0;
    ghost var seen := false;
    while j < |bits|
      invariant 0 <= j <= |bits|
      invariant (y * Pow(s, BitsValue(bits[..|bits| - j]))) % p == Pow(a, x) % p
      invariant seen ==> 0 <= y < p
      invariant !seen ==> y == 1
      invariant seen <==> exists k :: |bits| - j <= k < |bits| && bits[k]
    {
      var m := |bits| - j;
      var bit := bits[m - 1];
      assert bits[..m][..m - 1] == bits[..m - 1];
      RightStep(y, s, BitsValue(bits[..m - 1]), bit, p);
      if bit {
        y := y * s % p;
        seen := true;
      }
      s := s * s % p;
      j := j + 1;
    }
    if x >= 1 {
      assert bits[0];
      ModOfSmall(y, p);
    }
  }

  /** One iteration of the right-to-left loop keeps y * s^(remaining) fixed mod p. */
  lemma RightStep(y: int, s: int, v: nat, bit: bool, p: int)
    requires p >= 1
    ensures ((if bit then y * s % p else y) * Pow(s * s % p, v)) % p
            == (y * Pow(s, 2 * v + (if bit then 1 else 0))) % p
  {
    var y' := if bit then y * s % p else y;
    PowMod(s * s, v, p);
    PowSquare(s, v);
    ModMul(y', Pow(s * s % p, v), p);
    ModMul(y', Pow(s, 2 * v), p);
    assert (y' * Pow(s * s % p, v)) % p == (y' * Pow(s, 2 * v)) % p;
    if bit {
      ModMulLeft(y * s, Pow(s, 2 * v), p);
      assert Pow(s, 2 * v + 1) == s * Pow(s, 2 * v);
      assert (y * s) * Pow(s, 2 * v) == y * Pow(s, 2 * v + 1);
    }
  }
}
