/** The cofactor loop of the extended binary gcd, on integers. */
module MpiCofactors {
  import opened Arith
  import opened MpiDivide

  /** A number with its cofactors. */
  datatype Part = Part(n: int, x: int, y: int)

  /** Half of an even number; odd cofactors are corrected first. */
  function Halved(p: Part, xc: int, yc: int): Part {
    if p.x % 2 == 0 && p.y % 2 == 0 then Part(p.n / 2, p.x / 2, p.y / 2)
    else Part(p.n / 2, (p.x + yc) / 2, (p.y - xc) / 2)
  }

  function MadeOdd(p: Part, xc: int, yc: int): (q: Part)
    ensures p.n > 0 ==> 0 < q.n <= p.n && q.n % 2 == 1
    decreases if p.n > 0 then p.n else 0
  {
    if p.n <= 0 || p.n % 2 == 1 then p else MadeOdd(Halved(p, xc, yc), xc, yc)
  }

  function Minus(p: Part, q: Part): Part {
    Part(p.n - q.n, p.x - q.x, p.y - q.y)
  }

  /** Where the loop ends that starts from s and t. */
  function Run(s: Part, t: Part, xc: int, yc: int): Part
    requires s.n > 0 && t.n > 0
    decreases s.n + t.n
  {
    var p, q := MadeOdd(s, xc, yc), MadeOdd(t, xc, yc);
    if p.n == q.n then q
    else if p.n > q.n then Run(Minus(p, q), q, xc, yc)
    else Run(p, Minus(q, p), xc, yc)
  }

  /** The gcd of two numbers that are not both even, with the cofactors `mp_xgcd` finds. */
  function Cofactors(a: nat, b: nat): Part
    requires a > 0 && b > 0
  {
    Run(Part(a, 1, 0), Part(b, 0, 1), a, b)
  }

  /** Two positive numbers without their common factors of two. */
  function OddPair(a: nat, b: nat): (p: (nat, nat))
    requires a > 0 && b > 0
    ensures p.0 > 0 && p.1 > 0 && (p.0 % 2 == 1 || p.1 % 2 == 1)
  {
    if a % 2 == 0 && b % 2 == 0 then OddPair(a / 2, b / 2) else (a, b)
  }

  /** The cofactors that `mp_xgcd` delivers. */
  function Delivered(a: nat, b: nat): Part
    requires a > 0 && b > 0
  {
    var p := OddPair(a, b);
    Cofactors(p.0, p.1)
  }

  lemma HalfOfPower(n: nat)
    requires IsPower(2 * n)
    ensures IsPower(n)
  {
    var k: nat :| 2 * n == Pow2(k);
    assert n == Pow2(k - 1);
  }

  lemma OddPower(n: nat)
    requires IsPower(n) && n % 2 == 1
    ensures n == 1
  {
    var k: nat :| n == Pow2(k);
  }

  /** A power of two is halved down to 1, and its first cofactor never leaves the range of residues. */
  lemma {:induction false} PowerMadeOdd(p: Part, xc: int, yc: int)
    requires p.n > 0 && IsPower(p.n) && 0 <= p.x < yc
    ensures MadeOdd(p, xc, yc).n == 1 && 0 <= MadeOdd(p, xc, yc).x < yc
    decreases p.n
  {
    if p.n % 2 == 1 {
      OddPower(p.n);
    } else {
      HalfOfPower(p.n / 2);
      PowerMadeOdd(Halved(p, xc, yc), xc, yc);
    }
  }

  lemma {:induction false} PowerRun(s: Part, t: Part, xc: int, yc: int)
    requires s.n > 0 && t.n > 0 && IsPower(t.n) && 0 <= t.x < yc
    ensures 0 <= Run(s, t, xc, yc).x < yc
    decreases s.n + t.n
  {
    var p, q := MadeOdd(s, xc, yc), MadeOdd(t, xc, yc);
    PowerMadeOdd(t, xc, yc);
    if p.n > q.n {
      OneIsPower();
      PowerRun(Minus(p, q), q, xc, yc);
    }
  }

  lemma OneIsPower()
    ensures IsPower(1)
  {
    assert 1 == Pow2(0);
  }

  /** Against a power of two the first cofactor is already a residue. */
  lemma PowerCofactor(a: nat, b: nat)
    requires a > 0 && b > 0 && IsPower(b)
    ensures 0 <= Cofactors(a, b).x < b
  {
    PowerRun(Part(a, 1, 0), Part(b, 0, 1), a, b);
  }

  function HalvedTimes(p: Part, xc: int, yc: int, n: nat): Part {
    if n == 0 then p else Halved(HalvedTimes(p, xc, yc, n - 1), xc, yc)
  }

  /** Halving zero never makes it odd: for a = 0 the first inner loop of `mp_xgcd` does not end. */
  lemma {:induction false} ZeroStaysEven(xc: int, yc: int, n: nat)
    ensures HalvedTimes(Part(0, 1, 0), xc, yc, n).n == 0
    ensures HalvedTimes(Part(0, 1, 0), xc, yc, n).n % 2 == 0
  {
    if n > 0 {
      ZeroStaysEven(xc, yc, n - 1);
    }
  }

  /** For 4 and 5 the loop finds -1 and 1. */
  lemma CofactorsOfFourAndFive()
    ensures Cofactors(4, 5) == Part(1, -1, 1)
  {
    assert MadeOdd(Part(2, 3, -2), 4, 5) == MadeOdd(Part(1, 4, -3), 4, 5) == Part(1, 4, -3);
    assert MadeOdd(Part(4, 1, 0), 4, 5) == Part(1, 4, -3);
    assert MadeOdd(Part(5, 0, 1), 4, 5) == Part(5, 0, 1);
    assert MadeOdd(Part(2, -2, 2), 4, 5) == MadeOdd(Part(1, -1, 1), 4, 5) == Part(1, -1, 1);
    assert MadeOdd(Part(4, -4, 4), 4, 5) == Part(1, -1, 1);
    assert Run(Part(1, 4, -3), Part(4, -4, 4), 4, 5) == Part(1, -1, 1);
  }
}
