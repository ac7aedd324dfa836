/** Divisibility and greatest common divisors of integers. */
module Divisors {
  import opened Arith
  import opened MpiDigits

  ghost predicate Multiple(n: int, d: int, k: int) {
    n == k * d
  }

  ghost predicate Divides(d: int, n: int) {
    exists k: int :: Multiple(n, d, k)
  }

  lemma DividesBy(d: int, n: int, k: int)
    requires n == k * d
    ensures Divides(d, n)
  {
    assert Multiple(n, d, k);
  }

  lemma DividesSelf(d: int)
    ensures Divides(d, d) && Divides(d, 0) && Divides(1, d) && Divides(d, -d)
  {
    DividesBy(d, d, 1);
    DividesBy(d, 0, 0);
    DividesBy(1, d, d);
    DividesBy(d, -d, -1);
  }

  lemma DividesSum(d: int, x: int, y: int)
    requires Divides(d, x) && Divides(d, y)
    ensures Divides(d, x + y) && Divides(d, x - y)
  {
    var i :| Multiple(x, d, i);
    var j :| Multiple(y, d, j);
    Distribute(i, j, d);
    DividesBy(d, x + y, i + j);
    DividesBy(d, x - y, i - j);
  }

  lemma DividesProduct(d: int, x: int, c: int)
    requires Divides(d, x)
    ensures Divides(d, c * x)
  {
    var i :| Multiple(x, d, i);
    Assoc(c, i, d);
    DividesBy(d, c * x, c * i);
  }

  lemma DividesTransitive(d: int, n: int, m: int)
    requires Divides(d, n) && Divides(n, m)
    ensures Divides(d, m)
  {
    var j :| Multiple(m, n, j);
    DividesProduct(d, n, j);
  }

  lemma DividesBound(d: int, n: int)
    requires Divides(d, n) && d >= 0 && n > 0
    ensures 0 < d <= n
  {
    var k :| Multiple(n, d, k);
    if k <= 0 {
      MulMono(k, 0, d);
    } else {
      MulMono(1, k, d);
    }
  }

  lemma ProductParity(k: int, d: int)
    ensures k * d % 2 == 1 <==> k % 2 == 1 && d % 2 == 1
  {
    var i := k / 2;
    Distribute(2 * i, k % 2, d);
    Assoc(2, i, d);
    assert k % 2 == 0 ==> k * d == 2 * (i * d);
    assert k % 2 == 1 ==> k * d == 2 * (i * d) + d;
  }

  /** An odd divisor of an even number divides its half. */
  lemma OddDividesHalf(d: int, x: int)
    requires d % 2 == 1 && Divides(d, 2 * x)
    ensures Divides(d, x)
  {
    var k :| Multiple(2 * x, d, k);
    ProductParity(k, d);
    Assoc(2, k / 2, d);
    DividesBy(d, x, k / 2);
  }

  lemma DivisorOfOdd(d: int, n: int)
    requires Divides(d, n) && n % 2 == 1
    ensures d % 2 == 1
  {
    var k :| Multiple(n, d, k);
    ProductParity(k, d);
  }

  /** g divides both numbers and is divided by every common divisor. */
  ghost predicate IsGcd(g: nat, a: int, b: int) {
    && Divides(g, a) && Divides(g, b)
    && forall d: nat :: Divides(d, a) && Divides(d, b) ==> Divides(d, g)
  }

  /** Euclid's algorithm, as the reference. */
  function Gcd(a: nat, b: nat): nat
    decreases b
  {
    if b == 0 then a else Gcd(b, a % b)
  }

  lemma {:induction false} GcdIsGcd(a: nat, b: nat)
    ensures IsGcd(Gcd(a, b), a, b)
    decreases b
  {
    if b == 0 {
      DividesSelf(a);
    } else {
      var q, r, g := a / b, a % b, Gcd(a, b);
      GcdIsGcd(b, r);
      assert a == q * b + r;
      DividesProduct(g, b, q);
      DividesSum(g, q * b, r);
      forall d: nat | Divides(d, a) && Divides(d, b) ensures Divides(d, g) {
        DividesProduct(d, b, q);
        DividesSum(d, a, q * b);
      }
    }
  }

  lemma DividesEachOther(d: nat, n: nat)
    requires Divides(d, n) && Divides(n, d)
    ensures d == n
  {
    if n > 0 {
      DividesBound(d, n);
      DividesBound(n, d);
    } else {
      var k :| Multiple(d, n, k);
    }
  }

  /** The greatest common divisor is unique. */
  lemma GcdUnique(g: nat, a: nat, b: nat)
    ensures IsGcd(g, a, b) <==> g == Gcd(a, b)
  {
    GcdIsGcd(a, b);
    if IsGcd(g, a, b) {
      DividesEachOther(g, Gcd(a, b));
    }
  }

  /** A common divisor that is a combination of the two numbers is the greatest one. */
  lemma BezoutIsGcd(g: nat, a: nat, b: nat, x: int, y: int)
    requires Divides(g, a) && Divides(g, b) && g == x * a + y * b
    ensures g == Gcd(a, b)
  {
    hide Gcd, Divides;
    forall d: nat | Divides(d, a) && Divides(d, b) ensures Divides(d, g) {
      DividesProduct(d, a, x);
      DividesProduct(d, b, y);
      DividesSum(d, x * a, y * b);
    }
    GcdUnique(g, a, b);
  }

  /** A factor of two in one number only does not matter. */
  lemma GcdHalf(x: nat, y: nat)
    requires y % 2 == 1
    ensures Gcd(2 * x, y) == Gcd(x, y)
  {
    var g := Gcd(2 * x, y);
    GcdIsGcd(2 * x, y);
    hide Gcd, Divides;
    DivisorOfOdd(g, y);
    OddDividesHalf(g, x);
    forall d: nat | Divides(d, x) && Divides(d, y) ensures Divides(d, g) {
      DividesProduct(d, x, 2);
    }
    GcdUnique(g, x, y);
  }

  lemma GcdDifference(u: nat, v: nat)
    requires v <= u
    ensures Gcd(u - v, v) == Gcd(u, v)
  {
    var g := Gcd(u - v, v);
    GcdIsGcd(u - v, v);
    hide Gcd, Divides;
    DividesSum(g, u - v, v);
    forall d: nat | Divides(d, u) && Divides(d, v) ensures Divides(d, g) {
      DividesSum(d, u, v);
    }
    GcdUnique(g, u, v);
  }

  lemma GcdSymmetric(x: nat, y: nat)
    ensures Gcd(x, y) == Gcd(y, x)
  {
    GcdIsGcd(x, y);
    GcdUnique(Gcd(x, y), y, x);
  }

  lemma {:induction false} GcdDouble(x: nat, y: nat)
    ensures Gcd(2 * x, 2 * y) == 2 * Gcd(x, y)
    decreases y
  {
    if y > 0 {
      GcdDouble(y, x % y);
      DoubledRemainder(x, y);
    }
  }

  lemma DoubledRemainder(x: int, y: int)
    requires y > 0
    ensures (2 * x) % (2 * y) == 2 * (x % y)
  {
    var q, r := x / y, x % y;
    assert x == q * y + r;
    assert q * (2 * y) == 2 * (q * y) by { Assoc(q, 2, y); Assoc(2, q, y); }
    DivModUnique(2 * x, 2 * y, q, 2 * r);
  }

  lemma GcdEqual(x: nat)
    ensures Gcd(x, x) == x && Gcd(0, x) == x && Gcd(x, 0) == x
  {
    DividesSelf(x);
    GcdUnique(x, x, x);
    GcdUnique(x, 0, x);
  }
}
