/** Arithmetic modulo a number, and inverses modulo a prime. */
module ModArith {

  /** a and b have the same remainder modulo q. */
  ghost predicate Cong(a: int, b: int, q: int)
    requires q > 0
  {
    a % q == b % q
  }

  lemma Multiple(q: int, m: int)
    requires q > 0
    ensures m >= 1 ==> q * m >= q
    ensures m <= -1 ==> q * m <= -q
  {
  }

  lemma DivUnique(x: int, q: int, k: int, r: int)
    requires q > 0 && x == q * k + r && 0 <= r < q
    ensures x % q == r && x / q == k
  {
    var m := k - x / q;
    assert q * m == q * k - q * (x / q);
    Multiple(q, m);
  }

  lemma AddMultiple(x: int, k: int, q: int)
    requires q > 0
    ensures (x + q * k) % q == x % q
  {
    assert x + q * k == q * (x / q + k) + x % q;
    DivUnique(x + q * k, q, x / q + k, x % q);
  }

  lemma CongWitness(a: int, b: int, q: int) returns (k: int)
    requires q > 0 && Cong(a, b, q)
    ensures a == b + q * k
  {
    k := a / q - b / q;
    assert a == q * (a / q) + a % q && b == q * (b / q) + b % q;
  }

  lemma CongMod(a: int, q: int)
    requires q > 0
    ensures Cong(a % q, a, q) && Cong(a, a % q, q)
  {
    DivUnique(a % q, q, 0, a % q);
  }

  lemma CongAdd(a: int, b: int, c: int, d: int, q: int)
    requires q > 0 && Cong(a, b, q) && Cong(c, d, q)
    ensures Cong(a + c, b + d, q) && Cong(a - c, b - d, q)
  {
    hide Cong;
    var k := CongWitness(a, b, q);
    var l := CongWitness(c, d, q);
    SumOfMultiples(k, l, q);
    CongShift(b + d, k + l, q);
    CongShift(b - d, k - l, q);
  }

  lemma SumOfMultiples(k: int, l: int, q: int)
    ensures q * k + q * l == q * (k + l) && q * k - q * l == q * (k - l)
  {
  }

  lemma CongShift(x: int, k: int, q: int)
    requires q > 0
    ensures Cong(x + q * k, x, q)
  {
    AddMultiple(x, k, q);
  }

  lemma CongMul(a: int, b: int, c: int, d: int, q: int)
    requires q > 0 && Cong(a, b, q) && Cong(c, d, q)
    ensures Cong(a * c, b * d, q)
  {
    hide Cong;
    var k := CongWitness(a, b, q);
    var l := CongWitness(c, d, q);
    ProductOfSums(b, k, d, l, q);
    CongShift(b * d, b * l + k * d + q * k * l, q);
  }

  lemma CongScale(h: int, c: int, d: int, q: int)
    requires q > 0 && Cong(c, d, q)
    ensures Cong(h * c, h * d, q) && Cong(c * h, d * h, q)
  {
    CongMul(h, h, c, d, q);
    CongMul(c, d, h, h, q);
  }

  lemma ProductOfSums(b: int, k: int, d: int, l: int, q: int)
    ensures (b + q * k) * (d + q * l) == b * d + q * (b * l + k * d + q * k * l)
  {
    assert (b + q * k) * (d + q * l) == b * d + b * (q * l) + (q * k) * d + (q * k) * (q * l);
    assert b * (q * l) == q * (b * l);
    assert (q * k) * d == q * (k * d);
    assert (q * k) * (q * l) == q * (q * k * l);
  }

  // ----- inverses -----

  predicate Prime(q: int)
  {
    q >= 2 && forall d :: 1 < d < q ==> q % d != 0
  }

  /** Euclid's algorithm: the coefficients of a and b in a common divisor. */
  function Bezout(a: nat, b: nat): (r: (int, int, nat))
    requires a > 0 || b > 0
    ensures r.0 * a + r.1 * b == r.2 && r.2 > 0
    ensures a % r.2 == 0 && b % r.2 == 0
    decreases b
  {
    if b == 0 then
      DivUnique(a, a, 1, 0);
      DivUnique(0, a, 0, 0);
      (1, 0, a)
    else
      var (u, v, d) := Bezout(b, a % b);
      BezoutStep(a, b, u, v);
      DivisorOfBoth(a, b, d);
      (v, u - (a / b) * v, d)
  }

  lemma BezoutStep(a: nat, b: nat, u: int, v: int)
    requires b > 0
    ensures v * a + (u - (a / b) * v) * b == u * b + v * (a % b)
  {
    var k := a / b;
    assert a == b * k + a % b;
    assert v * (b * k + a % b) == v * (b * k) + v * (a % b);
    assert (u - k * v) * b == u * b - (k * v) * b;
    assert v * (b * k) == (k * v) * b;
  }

  lemma DivisorOfBoth(a: nat, b: nat, d: nat)
    requires b > 0 && d > 0 && b % d == 0 && (a % b) % d == 0
    ensures a % d == 0
  {
    var x, y := b / d, (a % b) / d;
    assert b == d * x && a % b == d * y;
    var k := x * (a / b) + y;
    assert a == d * k by {
      assert a == b * (a / b) + a % b;
      assert (d * x) * (a / b) == d * (x * (a / b));
      assert d * k == d * (x * (a / b)) + d * y;
    }
    DivUnique(a, d, k, 0);
  }

  /** The inverse modulo q of a number that has one. */
  function Inverse(x: int, q: int): (y: nat)
    requires q > 0
    ensures y < q
  {
    Bezout(x % q, q).0 % q
  }

  lemma DivisorIsSmall(x: nat, d: nat)
    requires x > 0 && d > 0 && x % d == 0
    ensures d <= x
  {
    if d > x {
      DivUnique(x, d, 0, x);
    }
  }

  lemma InverseExists(x: int, q: int)
    requires Prime(q) && x % q != 0
    ensures Cong(x * Inverse(x, q), 1, q)
  {
    var (u, v, d) := Bezout(x % q, q);
    DivisorIsSmall(x % q, d);
    CongMod(x, q);
    CongMod(u, q);
    CongMul(x, x % q, u % q, u, q);
    assert u * (x % q) == 1 + q * (-v);
    AddMultiple(1, -v, q);
    assert x * Inverse(x, q) == x * (u % q);
    assert (x % q) * u == u * (x % q);
  }

  /** A product is zero modulo a prime only if a factor is. */
  lemma NoZeroDivisors(a: int, b: int, q: int)
    requires Prime(q) && a % q != 0 && b % q != 0
    ensures (a * b) % q != 0
  {
    assert q >= 2;
    hide Prime, Inverse;
    var i := Inverse(a, q);
    InverseExists(a, q);
    CongMul(a * i, 1, b, b, q);
    DivUnique(0, q, 0, 0);
    if (a * b) % q == 0 {
      CongMul(a * b, 0, i, i, q);
      Rearranged(a, b, i);
    }
  }

  lemma Rearranged(a: int, b: int, i: int)
    ensures (a * b) * i == (a * i) * b && 1 * b == b && 0 * i == 0
  {
  }
}
