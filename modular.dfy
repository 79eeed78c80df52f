/**
 * Modular arithmetic behind the index walks of the RU10 and Raptor codecs.
 * Both step b to (b + a) mod p, with p prime and a not a multiple of p. From
 * any residue the walk then reaches 0 in fewer than p steps, because a has
 * an inverse mod p. The inverse comes from Bezout's identity, which the
 * extended Euclidean algorithm gives.
 */
module Modular {
  import Util

  /** Reducing the left operand first does not change a sum's residue. */
  lemma ModAddLeft(x: int, y: int, p: int)
    requires p > 0
    ensures ((x % p) + y) % p == (x + y) % p
  {
    var q, r := (x % p + y) / p, (x % p + y) % p;
    assert x == (x / p) * p + x % p;
    assert x % p + y == q * p + r;
    assert x + y == (x / p + q) * p + r;
    Util.DivUnique(x + y, p, x / p + q, r);
  }

  /** A multiple of g plus a multiple of g is a multiple of g. */
  lemma MultipleSum(x: int, y: int, c: int, g: int)
    requires g > 0 && x % g == 0 && y % g == 0
    ensures (c * x + y) % g == 0
  {
    var s, t := x / g, y / g;
    assert x == g * s && y == g * t;
    assert c * x + y == (c * s + t) * g;
    Util.DivUnique(c * x + y, g, c * s + t, 0);
  }

  /** A positive divisor of a positive integer is at most that integer. */
  lemma DivisorAtMost(x: int, g: int)
    requires x > 0 && g > 0 && x % g == 0
    ensures g <= x
  {
    var q := x / g;
    assert x == g * q;
  }

  /**
   * Bezout's identity, by the extended Euclidean algorithm: g divides both
   * a and b, and a·x + b·y == g. So every common divisor of a and b
   * divides g as well.
   */
  lemma Bezout(a: nat, b: nat) returns (x: int, y: int, g: int)
    requires a > 0
    ensures g > 0 && a % g == 0 && b % g == 0
    ensures a * x + b * y == g
    decreases b
  {
    if b == 0 {
      x, y, g := 1, 0, a;
    } else {
      var x', y', g' := Bezout(b, a % b);
      var q := a / b;
      assert a == q * b + a % b;
      x, y, g := y', x' - q * y', g';
      MultipleSum(b, a % b, q, g);
      calc {
        a * x + b * y;
        a * y' + b * (x' - q * y');
        b * x' + (a - q * b) * y';
        b * x' + (a % b) * y';
        g;
      }
    }
  }

  /** Every a strictly between 0 and a prime p has an inverse u mod p. */
  lemma Inverse(a: int, p: int) returns (u: int)
    requires Util.Prime(p) && 0 < a < p
    ensures (a * u) % p == 1
  {
    var x, y, g := Bezout(a, p);
    DivisorAtMost(a, g);
    assert g == 1;
    assert a * x == (-y) * p + 1;
    Util.DivUnique(a * x, p, -y, 1);
    u := x;
  }

  /** n·a by repeated addition, so that the walk's closed form stays linear. */
  function Times(n: nat, a: int): int
  {
    if n == 0 then 0 else Times(n - 1, a) + a
  }

  lemma {:induction false} TimesMul(n: nat, a: int)
    ensures Times(n, a) == n * a
  {
    if n > 0 {
      TimesMul(n - 1, a);
      assert n * a == (n - 1) * a + a;
    }
  }

  /**
   * Where the walk b := (b + a) % p stands after n steps: (b + n·a) mod p.
   * WalkStep shows that this is the walk, one step at a time.
   */
  function Walk(b: int, a: int, p: int, n: nat): (r: int)
    requires p > 0
    ensures 0 <= r < p
  {
    (b + Times(n, a)) % p
  }

  /** The walk starts at b and each step adds a modulo p. */
  lemma WalkStep(b: int, a: int, p: int, n: nat)
    requires p > 0 && 0 <= b < p
    ensures Walk(b, a, p, 0) == b
    ensures n > 0 ==> Walk(b, a, p, n) == Walk((b + a) % p, a, p, n - 1)
  {
    assert b + Times(0, a) == b && b % p == b;
    if n > 0 {
      ModAddLeft(b + a, Times(n - 1, a), p);
      assert b + a + Times(n - 1, a) == b + Times(n, a);
    }
  }

  /** From any residue, the walk reaches 0 within p - 1 steps. */
  lemma ReachZero(b: int, a: int, p: int) returns (n: nat)
    requires Util.Prime(p) && 0 < a < p && 0 <= b < p
    ensures n < p && Walk(b, a, p, n) == 0
  {
    var u := Inverse(a, p);
    n := ((p - b) * u) % p;
    TimesMul(n, a);
    InverseSteps(b, a, p, u, n);
  }

  /** With u the inverse of a, n = (p - b)·u mod p steps take b to a multiple of p. */
  lemma InverseSteps(b: int, a: int, p: int, u: int, n: int)
    requires p > 0 && (a * u) % p == 1 && n == ((p - b) * u) % p
    ensures (b + n * a) % p == 0
  {
    var e := (a * u) / p;
    var c := ((p - b) * u) / p;
    var k := 1 + (p - b) * e - c * a;
    Regroup(b, a, p, u, n, e, c);
    Util.DivUnique(b + n * a, p, k, 0);
  }

  /** The ring arithmetic of InverseSteps, over plain integers. */
  lemma Regroup(b: int, a: int, p: int, u: int, n: int, e: int, c: int)
    requires a * u == e * p + 1 && n == (p - b) * u - c * p
    ensures b + n * a == (1 + (p - b) * e - c * a) * p
  {
    calc {
      b + n * a;
      b + ((p - b) * u - c * p) * a;
      b + (p - b) * (a * u) - c * a * p;
      b + (p - b) * (e * p + 1) - c * a * p;
      (1 + (p - b) * e - c * a) * p;
    }
  }
}
