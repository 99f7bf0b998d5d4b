/**
 * Java `int` arithmetic on Dafny's unbounded integers: the 32-bit range,
 * wrap-around on overflow, and `%`, whose result takes the sign of the dividend.
 */
module JavaInt {
  const MinInt: int := -0x8000_0000
  const MaxInt: int := 0x7FFF_FFFF
  const Modulus: int := 0x1_0000_0000

  predicate IsInt(x: int) {
    MinInt <= x <= MaxInt
  }

  /** The `int` that a Java computation producing the mathematical value `x` yields. */
  function Wrap(x: int): (r: int)
    ensures IsInt(r)
    ensures (r - x) % Modulus == 0
  {
    (x - MinInt) % Modulus + MinInt
  }

  lemma WrapOfInt(x: int)
    requires IsInt(x)
    ensures Wrap(x) == x
  {
  }

  /** Values that differ by a multiple of 2^32 wrap to the same `int`. */
  lemma WrapCongruent(x: int, y: int)
    requires (x - y) % Modulus == 0
    ensures Wrap(x) == Wrap(y)
  {
    var k := (x - y) / Modulus;
    assert x - MinInt == (y - MinInt) + k * Modulus;
  }

  /** Java's `%` for a positive divisor: truncating division, so a negative dividend gives a remainder in (-d, 0]. */
  function Rem(a: int, d: int): (r: int)
    requires d > 0
    ensures a >= 0 ==> 0 <= r < d
    ensures a < 0 ==> -d < r <= 0
    ensures (a - r) % d == 0
  {
    var m := (if a >= 0 then a else -a) % d;
    Congruent(a, d, m);
    if a >= 0 then m else -m
  }

  /** Whichever sign `a` has, taking its remainder off leaves a multiple of `d`. */
  lemma Congruent(a: int, d: int, m: int)
    requires d > 0 && m == (if a >= 0 then a else -a) % d
    ensures (a - (if a >= 0 then m else -m)) % d == 0
  {
    var x := if a >= 0 then a else -a;
    var q := x / d;
    assert x - m == q * d;
    if a >= 0 {
      MultipleVanishes(q, d);
    } else {
      assert a - (-m) == (-q) * d;
      MultipleVanishes(-q, d);
    }
  }

  /** A positive multiple of `d` is at least `d`. */
  lemma {:induction false} AtLeastOnce(x: int, d: int)
    requires x >= 1 && d > 0
    ensures x * d >= d
  {
    if x > 1 {
      AtLeastOnce(x - 1, d);
      assert x * d == (x - 1) * d + d;
    }
  }

  /** A multiple of `d` leaves no remainder. */
  lemma MultipleVanishes(k: int, d: int)
    requires d > 0
    ensures (k * d) % d == 0
  {
    var q, m := (k * d) / d, (k * d) % d;
    assert k * d - m == q * d;
    assert (k - q) * d == m;
    if k - q >= 1 {
      AtLeastOnce(k - q, d);
    } else if q - k >= 1 {
      AtLeastOnce(q - k, d);
    }
  }
}
