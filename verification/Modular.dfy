/** Facts about quotients and remainders that the solver does not find by itself. */
module Modular {

  lemma AtLeastOne(x: int, c: nat)
    requires x >= 1
    ensures x * c >= c
  {
    assert x * c == (x - 1) * c + c;
  }

  /** A quotient and a remainder below the divisor determine the remainder. */
  lemma ModUnique(a: int, c: nat, q: int, r: nat)
    requires a == q * c + r && r < c
    ensures a % c == r && a / c == q
  {
    var q1, r1 := a / c, a % c;
    assert a == q1 * c + r1;
    assert (q - q1) * c == r1 - r;
    if q > q1 {
      AtLeastOne(q - q1, c);
    } else if q < q1 {
      assert (q1 - q) * c == r - r1;
      AtLeastOne(q1 - q, c);
    }
  }

  lemma ModLess(a: int, m: nat)
    requires m > 0
    ensures (a - m) % m == a % m
  {
    var q := a / m;
    assert a == q * m + a % m;
    assert (q - 1) * m == q * m - m;
    ModUnique(a - m, m, q - 1, a % m);
  }

  /** Reducing a summand first does not change the reduced sum. */
  lemma ModAdd(h: int, n: int, m: nat)
    requires m > 0
    ensures (h + n % m) % m == (h + n) % m
  {
    var a := h + n % m;
    var q, p := a / m, n / m;
    assert a == q * m + a % m && n == p * m + n % m;
    assert (q + p) * m == q * m + p * m;
    ModUnique(h + n, m, q + p, a % m);
  }

  /** Reducing a factor first does not change the reduced product. */
  lemma ModTimes(n: nat, k: nat, m: nat)
    requires m > 0
    ensures (n % m * k) % m == (n * k) % m
  {
    var q, r := n / m, n % m;
    var p := (r * k) / m;
    assert n == q * m + r && r * k == p * m + (r * k) % m;
    assert n * k == (q * k + p) * m + (r * k) % m by {
      assert (q * m) * k == (q * k) * m;
    }
    ModUnique(n * k, m, q * k + p, (r * k) % m);
  }

  /** Reducing by a multiple of the modulus first changes nothing. */
  lemma ModMod(a: nat, m: nat, d: nat)
    requires 0 < d <= m && m % d == 0
    ensures (a % m) % d == a % d
  {
    var q, k, p := a / m, m / d, (a % m) / d;
    assert a == q * m + a % m && m == k * d && a % m == p * d + (a % m) % d;
    assert (q * k + p) * d == q * m + p * d by {
      assert q * m == q * (k * d) == (q * k) * d;
    }
    ModUnique(a, d, q * k + p, (a % m) % d);
  }

  lemma MulUpTo(a: nat, b: nat, x: nat)
    requires a <= b
    ensures a * x <= b * x
  {
    assert b * x == a * x + (b - a) * x;
  }

  /** Two different multiples of `m` are at least `m` apart. */
  lemma MultiplesApart(a: nat, b: nat, m: nat)
    requires m > 0 && a % m == 0 && b % m == 0 && a < b
    ensures a + m <= b
  {
    var p, q := a / m, b / m;
    assert a == p * m && b == q * m;
    assert (q - p) * m == b - a;
    if q > p {
      AtLeastOne(q - p, m);
    } else {
      MulUpTo(q, p, m);
    }
  }
}
