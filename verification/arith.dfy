module Arith {

  /** `d` divides `n` in the sense of Python's `n % d == 0` test. */
  predicate Divides(d: nat, n: nat)
    requires d > 0
  {
    n % d == 0
  }

  /** Python 2's `/` on non-negative integers (floor division). Written as
      repeated subtraction so that proofs meet its arithmetic only through
      `FloorDivIsDiv`. */
  function FloorDiv(a: nat, b: nat): nat
    requires b > 0
    decreases a
  {
    if a < b then 0 else 1 + FloorDiv(a - b, b)
  }

  lemma {:induction false} FloorDivBounds(a: nat, b: nat)
    requires b > 0
    ensures FloorDiv(a, b) * b <= a < FloorDiv(a, b) * b + b
    decreases a
  {
    if a >= b {
      FloorDivBounds(a - b, b);
      var q := FloorDiv(a - b, b);
      assert (q + 1) * b == q * b + b;
    }
  }

  lemma MulStep(x: nat, y: nat, b: nat)
    requires x < y
    ensures x * b + b <= y * b
  {
    var d := y - x;
    assert y * b == (x + d) * b;
    assert (x + d) * b == x * b + d * b;
    assert d * b >= b;
  }

  /** Euclidean division has one quotient and one remainder. */
  lemma DivModUnique(n: nat, d: nat, q: nat, r: nat)
    requires d > 0 && n == q * d + r && r < d
    ensures n / d == q && n % d == r
  {
    var q', r' := n / d, n % d;
    assert n == q' * d + r';
    if q' < q {
      MulStep(q', q, d);
      assert false;
    } else if q < q' {
      MulStep(q, q', d);
      assert false;
    }
  }

  /** A positive factor can be cancelled. */
  lemma MulCancel(p: nat, a: nat, b: nat)
    requires p > 0 && p * a == p * b
    ensures a == b
  {
    if a < b {
      MulStep(a, b, p);
      assert false;
    } else if b < a {
      MulStep(b, a, p);
      assert false;
    }
  }

  /** The subtraction loop computes Dafny's `/` on naturals. */
  lemma FloorDivIsDiv(a: nat, b: nat)
    requires b > 0
    ensures FloorDiv(a, b) == a / b
  {
    FloorDivBounds(a, b);
    var q := FloorDiv(a, b);
    DivModUnique(a, b, q, a - q * b);
  }

  /** An exact division undoes the multiplication. */
  lemma ExactQuotient(a: nat, b: nat)
    requires b > 0 && Divides(b, a)
    ensures FloorDiv(a, b) * b == a
  {
    FloorDivIsDiv(a, b);
  }

  ghost predicate IsPrime(p: nat)
  {
    p >= 2 && forall d :: 1 < d < p ==> p % d != 0
  }

  lemma MulAssoc(a: nat, b: nat, c: nat)
    ensures a * (b * c) == (a * b) * c
  {
  }

  /** One more link of a chain of exact quotients: if `a * c == b` and
      `b * p == n` then `a * (p * c) == n`. */
  lemma ChainStep(a: nat, c: nat, b: nat, p: nat, n: nat)
    requires a * c == b && b * p == n
    ensures a * (p * c) == n
  {
    MulSwap(a, p, c);
  }

  lemma MulSwap(a: nat, b: nat, c: nat)
    ensures a * (b * c) == b * (a * c)
  {
  }

  lemma DividesMultiple(d: nat, k: nat)
    requires d > 0
    ensures Divides(d, d * k)
  {
    DivModUnique(d * k, d, k, 0);
  }

  lemma QuotientOf(d: nat, n: nat)
    requires d > 0 && Divides(d, n)
    ensures n == d * (n / d)
  {
  }

  lemma DividesTransitive(a: nat, b: nat, c: nat)
    requires a > 0 && b > 0 && Divides(a, b) && Divides(b, c)
    ensures Divides(a, c)
  {
    var j, k := b / a, c / b;
    assert c == (a * j) * k;
    assert c == a * (j * k);
    DividesMultiple(a, j * k);
  }

  lemma DividesProduct(a: nat, b: nat, x: nat, y: nat)
    requires a > 0 && b > 0 && Divides(a, x) && Divides(b, y)
    ensures Divides(a * b, x * y)
  {
    var j, k := x / a, y / b;
    assert x * y == (a * j) * (b * k);
    assert x * y == (a * b) * (j * k);
    DividesMultiple(a * b, j * k);
  }

  lemma CancelFactor(p: nat, x: nat, y: nat)
    requires p > 0 && x > 0 && Divides(p * x, p * y)
    ensures Divides(x, y)
  {
    var k := (p * y) / (p * x);
    assert p * y == (p * x) * k;
    MulAssoc(p, x, k);
    MulCancel(p, y, x * k);
    DividesMultiple(x, k);
  }

  /** Two positive numbers that divide each other are equal. */
  lemma MutualDivision(a: nat, b: nat)
    requires a > 0 && b > 0 && Divides(a, b) && Divides(b, a)
    ensures a == b
  {
    var j, k := b / a, a / b;
    assert a == a * (j * k);
    assert j * k == 1;
  }

  /** A prime that divides `r * m` with `0 < r < p` divides `m` (the descent
      behind Euclid's lemma). */
  lemma {:induction false} PrimeDividesFactor(p: nat, r: nat, m: nat)
    requires IsPrime(p) && 0 < r < p && Divides(p, r * m)
    ensures Divides(p, m)
    decreases r
  {
    if r > 1 {
      var q, s := p / r, p % r;
      assert s != 0;
      var a := (r * m) / p;
      assert r * m == p * a;
      assert s * m == p * m - q * (r * m) by {
        assert p == r * q + s;
        assert p * m == (r * q) * m + s * m;
        assert (r * q) * m == q * (r * m);
      }
      assert s * m == p * (m - q * a);
      DividesMultiple(p, m - q * a);
      PrimeDividesFactor(p, s, m);
    }
  }

  /** Euclid's lemma for two distinct primes. */
  lemma PrimeDividesOther(p: nat, q: nat, m: nat)
    requires IsPrime(p) && IsPrime(q) && p != q && Divides(p, q * m)
    ensures Divides(p, m)
  {
    var r := q % p;
    assert r != 0;
    var t := q / p;
    assert q * m == (p * t) * m + r * m;
    assert (p * t) * m == p * (t * m);
    var a := (q * m) / p;
    assert r * m == p * (a - t * m);
    DividesMultiple(p, a - t * m);
    PrimeDividesFactor(p, r, m);
  }

  /** Trial division by 2..10 settles primality below 121. */
  lemma SmallPrime(p: nat)
    requires 2 <= p < 121
    requires forall d :: 2 <= d <= 10 && d < p ==> p % d != 0
    ensures IsPrime(p)
  {
    forall d | 1 < d < p
      ensures p % d != 0
    {
      if p % d == 0 {
        var e := p / d;
        assert p == d * e;
        if d > 10 {
          assert e <= 10;
          assert e >= 2;
          assert p == e * d;
          DividesMultiple(e, d);
        }
      }
    }
  }
}
