/** Divisibility, Euclid's gcd and unique factorisation into two primes. */
module NumberTheory {

  // ---- greatest common divisor ----

  ghost predicate Divides(d: nat, n: nat) {
    exists k: nat :: n == d * k
  }

  lemma MulOrder(d: nat, x: int, y: int)
    requires d > 0
    ensures x < y <==> d * x < d * y
    ensures x == y <==> d * x == d * y
  {
  }

  lemma SmallMod(v: nat, p: nat)
    requires v < p
    ensures v % p == v
  {
  }

  lemma DivUnique(n: int, d: nat, k: int, r: nat)
    requires n == d * k + r && r < d
    ensures n / d == k && n % d == r
  {
    var q, m := n / d, n % d;
    assert n == d * q + m;
    assert d * (k - q) == m - r;
    MulOrder(d, k - q, 1);
    MulOrder(d, -1, k - q);
  }

  function Gcd(a: nat, b: nat): nat
    decreases b
  {
    if b == 0 then a else Gcd(b, a % b)
  }

  lemma DividesProduct(d: nat, a: nat, b: nat)
    requires Divides(d, a)
    ensures Divides(d, a * b) && Divides(d, b * a)
  {
    var k: nat :| a == d * k;
    assert a * b == d * (k * b) && b * a == d * (k * b);
  }

  lemma MultiplesDiffer(d: nat, k: nat, m: nat, b: nat)
    requires d * k + b == d * m
    ensures Divides(d, b)
  {
    assert b == d * (m - k);
    if d > 0 {
      MulOrder(d, m - k, 0);
      assert b == d * (m - k);
    } else {
      assert b == d * 0;
    }
  }

  lemma DividesSum(d: nat, a: nat, b: nat)
    requires Divides(d, a)
    ensures Divides(d, a + b) <==> Divides(d, b)
  {
    var k: nat :| a == d * k;
    if Divides(d, b) {
      var m: nat :| b == d * m;
      assert a + b == d * (k + m);
    }
    if Divides(d, a + b) {
      var m: nat :| a + b == d * m;
      MultiplesDiffer(d, k, m, b);
    }
  }

  /** `Gcd` divides both arguments, and every common divisor divides it. */
  lemma {:induction false} GcdDivides(a: nat, b: nat, d: nat)
    ensures Divides(Gcd(a, b), a) && Divides(Gcd(a, b), b)
    ensures Divides(d, a) && Divides(d, b) ==> Divides(d, Gcd(a, b))
    decreases b
  {
    if b == 0 {
      assert a == a * 1 && 0 == a * 0;
    } else {
      var q, r := a / b, a % b;
      assert a == b * q + r;
      GcdDivides(b, r, d);
      var g := Gcd(b, r);
      DividesProduct(g, b, q);
      DividesSum(g, b * q, r);
      if Divides(d, a) && Divides(d, b) {
        DividesProduct(d, b, q);
        DividesSum(d, b * q, r);
      }
    }
  }

  lemma {:induction false} Bezout(a: nat, b: nat) returns (x: int, y: int)
    ensures a * x + b * y == Gcd(a, b)
    decreases b
  {
    if b == 0 {
      x, y := 1, 0;
    } else {
      var q, r := a / b, a % b;
      var u, v := Bezout(b, r);
      x, y := v, u - q * v;
      calc {
        a * x + b * y;
      ==
        a * v + (b * u - b * (q * v));
      == { assert b * (q * v) == (b * q) * v; }
        (a - b * q) * v + b * u;
      ==
        r * v + b * u;
      }
    }
  }

  lemma DivideExactly(n: nat, d: nat, k: nat)
    requires n == d * k && n > 0
    ensures d > 0 && k > 0 && n / d == k && n % d == 0 && d <= n
  {
    assert d > 0 && k > 0;
    DivUnique(n, d, k, 0);
    MulOrder(d, 1, k);
  }

  /** For `a < n` the gcd lies in `1..=n`, divides `n`, and is `n` only at `a == 0`. */
  lemma GcdRange(a: nat, n: nat)
    requires a < n
    ensures 1 <= Gcd(a, n) <= n && n % Gcd(a, n) == 0
    ensures Gcd(a, n) == n <==> a == 0
  {
    GcdDivides(a, n, n);
    var g := Gcd(a, n);
    var k: nat :| n == g * k;
    DivideExactly(n, g, k);
    var m: nat :| a == g * m;
    if a != 0 {
      DivideExactly(a, g, m);
    } else {
      DivUnique(0, n, 0, 0);
      assert Gcd(0, n) == Gcd(n, 0) == n;
    }
  }

  lemma ExactQuotient(n: nat, d: nat)
    requires d > 0 && n % d == 0
    ensures d * (n / d) == n
  {
  }

  // ---- primes ----

  ghost predicate Prime(p: nat) {
    p > 1 && forall d: nat :: Divides(d, p) ==> d == 1 || d == p
  }

  /** Euclid's lemma. */
  lemma PrimeDividesFactor(p: nat, a: nat, b: nat)
    requires Prime(p) && Divides(p, a * b)
    ensures Divides(p, a) || Divides(p, b)
  {
    GcdDivides(p, a, p);
    if Gcd(p, a) == 1 {
      var x, y := Bezout(p, a);
      var k: nat :| a * b == p * k;
      var m := x * b + k * y;
      BezoutTimes(p, a, b, x, y, k);
      MulOrder(p, m, 0);
      assert b == p * m;
    }
  }

  lemma BezoutTimes(p: nat, a: nat, b: nat, x: int, y: int, k: nat)
    requires p * x + a * y == 1 && a * b == p * k
    ensures b == p * (x * b + k * y)
  {
    calc {
      b;
    ==
      (p * x + a * y) * b;
    ==
      (p * x) * b + (a * y) * b;
    == { assert (p * x) * b == p * (x * b); assert (a * y) * b == (a * b) * y; }
      p * (x * b) + (a * b) * y;
    ==
      p * (x * b) + (p * k) * y;
    == { assert (p * k) * y == p * (k * y); }
      p * (x * b) + p * (k * y);
    }
  }

  /** A product of two primes has no other proper factorisation. */
  lemma OnlyFactors(p: nat, q: nat, a: nat, b: nat)
    requires Prime(p) && Prime(q) && a * b == p * q && a > 1 && b > 1
    ensures (a == p && b == q) || (a == q && b == p)
  {
    assert a * b == p * q;
    PrimeDividesFactor(p, a, b);
    if Divides(p, a) {
      Cofactor(p, q, a, b);
    } else {
      assert b * a == p * q;
      Cofactor(p, q, b, a);
    }
  }

  lemma Cofactor(p: nat, q: nat, a: nat, b: nat)
    requires Prime(p) && Prime(q) && a * b == p * q && Divides(p, a) && b > 1
    ensures a == p && b == q
  {
    var k: nat :| a == p * k;
    Cancel(p, k, b, q);
    assert Divides(b, q);
    assert b == q;
    MulOrder(b, k, 1);
  }

  lemma Cancel(p: nat, k: nat, b: nat, q: nat)
    requires p > 0 && (p * k) * b == p * q
    ensures q == b * k
  {
    assert p * (k * b) == (p * k) * b;
    MulOrder(p, k * b, q);
  }
}
