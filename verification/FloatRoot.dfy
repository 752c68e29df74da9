/** The trial-division bound of `src/mtproto.rs` is computed in floating point: `n` is
    rounded to a double, its square root is rounded to a double, and the fraction is cut
    off. Both roundings are harmless: below 2^63 the bound reaches every factor that is
    not above the square root. */
module FloatRoot {
  import opened Wrappers
  import opened Bytes
  import opened NumberTheory

  const SIGNIFICAND: nat := 0x20_0000_0000_0000

  /** A non-negative double: 53 significant bits times a power of two (the exponent range
      plays no part at these magnitudes). */
  ghost predicate IsDouble(x: real) {
    exists m: nat, f: nat :: DoubleAs(x, m, f)
  }

  ghost predicate DoubleAs(x: real, m: nat, f: nat) {
    m < SIGNIFICAND && (x == m as real * Pow2(f) as real || x * Pow2(f) as real == m as real)
  }

  function Off(x: real, y: real): real {
    if x < y then y - x else x - y
  }

  /** Round to nearest, either way on a tie. */
  ghost predicate Nearest(x: real, d: real) {
    IsDouble(d) && forall e :: IsDouble(e) ==> Off(x, d) <= Off(x, e)
  }

  lemma {:induction false} Pow2Sum(a: nat, b: nat)
    ensures Pow2(a + b) == Pow2(a) * Pow2(b)
  {
    if a > 0 {
      Pow2Sum(a - 1, b);
      assert Pow2(a + b) == 2 * Pow2(a - 1 + b);
    }
  }

  lemma {:induction false} Pow2Grows(a: nat, b: nat)
    requires a <= b
    ensures Pow2(a) <= Pow2(b)
  {
    if a < b {
      Pow2Grows(a, b - 1);
    }
  }

  lemma WholeDouble(x: nat, m: nat, f: nat)
    requires x == m * Pow2(f) && m <= SIGNIFICAND
    ensures IsDouble(x as real)
  {
    if m < SIGNIFICAND {
      assert DoubleAs(x as real, m, f);
    } else {
      var half := SIGNIFICAND / 2;
      assert x == half * Pow2(f + 1);
      assert DoubleAs(x as real, half, f + 1);
    }
  }

  /** Rounding never crosses a double. */
  lemma NeverCrosses(x: real, d: real, e: real)
    requires Nearest(x, d) && IsDouble(e)
    ensures e <= x ==> e <= d
    ensures x <= e ==> d <= e
  {
    assert Off(x, d) <= Off(x, e);
  }

  lemma ScaleOrder(x: real, y: real, c: real)
    requires c > 0.0
    ensures x < y <==> x * c < y * c
  {
  }

  lemma SquareOrder(a: real, b: real)
    requires a >= 0.0 && b >= 0.0
    ensures a < b <==> a * a < b * b
  {
    if a < b {
      Squares(a, b);
    } else if b < a {
      Squares(b, a);
    }
  }

  lemma Squares(a: real, b: real)
    requires 0.0 <= a < b
    ensures a * a < b * b
  {
    var gap := b - a;
    assert b * b == a * a + 2.0 * (a * gap) + gap * gap;
    assert a * gap >= 0.0;
    assert gap * gap > 0.0;
  }

  lemma ScaleGrows(x: real, y: real, c: real)
    requires x <= y && c >= 0.0
    ensures x * c <= y * c && c * x <= c * y
  {
  }

  /** `s` is at least `1/d` below `p`. */
  ghost predicate Spaced(s: real, p: nat, d: nat) {
    (p as real - s) * d as real >= 1.0
  }

  /** A double below an integer `p` above 2^k stays a whole spacing below it. */
  lemma Gap(s: real, p: nat, k: nat)
    requires IsDouble(s) && s < p as real && k <= 52 && Pow2(k) < p
    ensures Spaced(s, p, Pow2(52 - k))
  {
    var m: nat, f: nat :| DoubleAs(s, m, f);
    hide *;
    DoubleForms(s, m, f);
    if IsWhole(s, m, f) {
      WholeGap(s, p, m, f, Pow2(52 - k));
    } else if f <= 52 - k {
      FinePart(s, p, m, f, k);
    } else {
      CoarseGap(s, p, m, f, k);
    }
  }

  ghost predicate IsWhole(x: real, m: nat, f: nat) {
    x == m as real * Pow2(f) as real
  }

  ghost predicate IsPart(x: real, m: nat, f: nat) {
    x * Pow2(f) as real == m as real
  }

  lemma DoubleForms(x: real, m: nat, f: nat)
    requires DoubleAs(x, m, f)
    ensures m < SIGNIFICAND && (IsWhole(x, m, f) || IsPart(x, m, f))
  {
  }

  lemma WholeGap(s: real, p: nat, m: nat, f: nat, d: nat)
    requires IsWhole(s, m, f) && s < p as real && d > 0
    ensures Spaced(s, p, d)
  {
    var w := WholeValue(s, m, f);
    AtLeastOne((p - w) as real, d);
  }

  lemma WholeValue(s: real, m: nat, f: nat) returns (w: nat)
    requires IsWhole(s, m, f)
    ensures s == w as real
  {
    hide Pow2;
    WholeProduct(m, Pow2(f));
    w := m * Pow2(f);
  }

  lemma WholeProduct(a: nat, b: nat)
    ensures (a * b) as real == a as real * b as real
  {
  }

  lemma FinePart(s: real, p: nat, m: nat, f: nat, k: nat)
    requires IsPart(s, m, f) && s < p as real && f <= 52 - k && k <= 52
    ensures Spaced(s, p, Pow2(52 - k))
  {
    hide Pow2;
    Pow2Sum(f, 52 - k - f);
    FineGap(s, p, m, Pow2(f), Pow2(52 - k - f));
  }

  lemma CoarseGap(s: real, p: nat, m: nat, f: nat, k: nat)
    requires k <= 52 && f > 52 - k && Pow2(k) < p
    requires m < SIGNIFICAND && IsPart(s, m, f)
    ensures Spaced(s, p, Pow2(52 - k))
  {
    hide *;
    CoarseBound(s, m, f, k);
    Apart(s, p, Pow2(k), Pow2(52 - k));
  }

  lemma Apart(s: real, p: nat, below: nat, d: nat)
    requires s < below as real && below < p && d > 0
    ensures Spaced(s, p, d)
  {
    AtLeastOne(p as real - s, d);
  }

  lemma CoarseBound(s: real, m: nat, f: nat, k: nat)
    requires k <= 52 && f > 52 - k
    requires m < SIGNIFICAND && IsPart(s, m, f)
    ensures s < Pow2(k) as real
  {
    hide Pow2;
    Pow2Sum(k, f);
    Pow2Grows(53, k + f);
    SignificandIsPow2();
    assert s * Pow2(f) as real < (Pow2(k) * Pow2(f)) as real == Pow2(k) as real * Pow2(f) as real;
    ScaleOrder(s, Pow2(k) as real, Pow2(f) as real);
  }

  lemma SignificandIsPow2()
    ensures Pow2(53) == SIGNIFICAND && Pow2(52) == SIGNIFICAND / 2
  {
    Pow2ThirtyTwo();
    assert Pow2(36) == 16 * Pow2(32);
    assert Pow2(40) == 16 * Pow2(36);
    assert Pow2(44) == 16 * Pow2(40);
    assert Pow2(48) == 16 * Pow2(44);
    assert Pow2(52) == 16 * Pow2(48);
  }

  lemma AtLeastOne(x: real, d: nat)
    requires x >= 1.0 && d >= 1
    ensures x * d as real >= 1.0
  {
  }

  lemma FineGap(s: real, p: nat, m: nat, a: nat, b: nat)
    requires s < p as real && s * a as real == m as real && a > 0 && b > 0
    ensures Spaced(s, p, a * b)
  {
    var x := (p as real - s) * a as real;
    assert x == (p * a - m) as real;
    assert x > 0.0;
    assert x >= 1.0;
    AtLeastOne(x, b);
    assert (p as real - s) * (a * b) as real == x * b as real;
  }

  // ---- the bound ----

  /** Rounding an integer below 2^63 moves it by at most half the spacing at its size. */
  lemma RoundingError(n: nat, v: real, e: nat)
    requires Nearest(n as real, v) && e > 0 && n < Pow2(53 + e)
    ensures n as real - v <= Pow2(e - 1) as real
  {
    hide *;
    var d := Pow2(e);
    Pow2Sum(53, e);
    SignificandIsPow2();
    var lo, x := Quotient(n, d, Pow2(53));
    WholeDouble(x, lo, e);
    WholeDouble(x + d, lo + 1, e);
    HalfOf(e);
    Closer(n, v, x, Pow2(e - 1));
  }

  lemma HalfOf(e: nat)
    requires e > 0
    ensures Pow2(e) == 2 * Pow2(e - 1)
  {
  }

  lemma Quotient(n: nat, d: nat, top: nat) returns (lo: nat, x: nat)
    requires d > 0 && n < top * d
    ensures lo < top && x == lo * d && x + d == (lo + 1) * d && x <= n < x + d
  {
    lo := n / d;
    x := lo * d;
    MulOrder(d, lo, top);
  }

  /** One of two neighbours is within half their distance. */
  lemma Closer(n: nat, v: real, lo: nat, h: nat)
    requires Nearest(n as real, v) && IsDouble(lo as real) && IsDouble((lo + 2 * h) as real)
    requires lo <= n <= lo + 2 * h
    ensures n as real - v <= h as real
  {
    assert Off(n as real, v) <= Off(n as real, lo as real);
    assert Off(n as real, v) <= Off(n as real, (lo + 2 * h) as real);
  }

  /** The real square root `t` of the rounded number lies above `p` less half the spacing
      of doubles there. */
  lemma RootNear(p: real, v: real, t: real, D: real, E: real)
    requires t >= 0.0 && t * t == v && D >= 1.0 && p >= 1.0
    requires p * p - v <= E && p > (E + 0.25) * D
    ensures (p - t) * D < 0.5
  {
    var x := p - t;
    assert x * (2.0 * p - x) == p * p - v;
    if x * D >= 0.5 {
      HalfSpacing(p, x, D, E);
    }
  }

  lemma HalfSpacing(p: real, x: real, D: real, E: real)
    requires D >= 1.0 && x <= p && x * D >= 0.5 && p > (E + 0.25) * D
    ensures x * (2.0 * p - x) > E
  {
    var y, z := x * D, p * D;
    var gain := x * (2.0 * p - x);
    ScaleOrder(p, x, D);
    Rising(0.5, y, z);
    assert y * (2.0 * z - y) == (gain * D) * D;
    ScaleOrder((E + 0.25) * D, p, D);
    assert (E + 0.25) * D * D == (E * D) * D + 0.25 * (D * D);
    ScaleOrder(1.0, D, D);
    assert (E * D) * D < (gain * D) * D;
    ScaleOrder(E * D, gain * D, D);
    ScaleOrder(E, gain, D);
  }

  lemma Rising(h: real, x: real, p: real)
    requires h <= x <= p
    ensures h * (2.0 * p - h) <= x * (2.0 * p - x)
  {
    assert x * (2.0 * p - x) - h * (2.0 * p - h) == (x - h) * (2.0 * p - x - h);
  }

  lemma Size(n: nat) returns (e: nat)
    requires SIGNIFICAND <= n < TWO_63
    ensures 1 <= e <= 10 && Pow2(52 + e) <= n < Pow2(53 + e)
  {
    SignificandIsPow2();
    assert Pow2(63) == TWO_63 by {
      Pow2ThirtyTwo();
      assert Pow2(27) == 2 * Pow2(26) && Pow2(31) == 16 * Pow2(27);
      Pow2Sum(31, 32);
    }
    e := 1;
    while n >= Pow2(53 + e)
      invariant 1 <= e <= 10 && Pow2(52 + e) <= n
      decreases 10 - e
    {
      assert e < 10;
      e := e + 1;
    }
  }

  /** `p` is large against the spacing of doubles around it. */
  lemma LargeEnough(p: nat, e: nat, k: nat)
    requires 1 <= e <= 10 && k == 26 + e / 2 && p * p > Pow2(52 + e)
    ensures k <= 52 && p > Pow2(k) && 4 * p > 5 * (Pow2(e - 1) * Pow2(52 - k))
  {
    var K := Pow2(k);
    Pow2Sum(e - 1, 52 - k);
    Pow2Sum(k, k);
    if e % 2 == 0 {
      assert 2 * k == 52 + e && e - 1 + (52 - k) == k - 1;
      RootAbove(p, K, 1);
    } else {
      assert 2 * k + 1 == 52 + e && e - 1 + (52 - k) == k;
      assert Pow2(2 * k + 1) == 2 * Pow2(2 * k);
      RootAbove(p, K, 2);
    }
  }

  lemma RootAbove(p: nat, K: nat, times: nat)
    requires K > 0 && 1 <= times <= 2 && p * p > times * (K * K)
    ensures p > K && (times == 2 ==> 4 * p > 5 * K)
  {
    if p <= K {
      NatSquares(p, K);
    }
    if times == 2 && 4 * p <= 5 * K {
      NatSquares(4 * p, 5 * K);
    }
  }

  lemma NatSquares(a: nat, b: nat)
    requires a <= b
    ensures a * a <= b * b
  {
    assert b * b - a * a == (b - a) * (b + a);
  }

  lemma RootNearInts(p: nat, v: real, t: real, D: nat, E: nat)
    requires t >= 0.0 && t * t == v && D >= 1 && p >= 1 && E >= 1
    requires (p * p) as real - v <= E as real && 4 * p > 5 * (E * D)
    ensures (p as real - t) * D as real < 0.5
  {
    hide *;
    var P, d, c := p as real, D as real, E as real;
    WholeProduct(p, p);
    WholeProduct(E, D);
    Enlarge(c, d);
    RootNear(P, v, t, d, c);
  }

  lemma Enlarge(c: real, d: real)
    requires c >= 1.0 && d >= 1.0
    ensures 4.0 * ((c + 0.25) * d) <= 5.0 * (c * d)
  {
    assert 5.0 * (c * d) - 4.0 * ((c + 0.25) * d) == (c - 1.0) * d;
  }

  lemma CloserThan(p: nat, t: real, s: real, d: nat)
    requires Off(t, s) <= Off(t, p as real) && t < p as real && d > 0 && (p as real - t) * d as real < 0.5
    ensures s < p as real ==> !Spaced(s, p, d)
  {
    var P := p as real;
    if s < P {
      assert P - s <= 2.0 * (P - t);
      ScaleGrows(P - s, 2.0 * (P - t), d as real);
    }
  }

  lemma NearestWins(t: real, s: real, e: real)
    requires Nearest(t, s) && IsDouble(e)
    ensures IsDouble(s) && Off(t, s) <= Off(t, e)
  {
  }

  /** The nearest double to a root just below an integer is not below the integer. */
  lemma RoundsUp(p: nat, t: real, s: real, k: nat)
    requires Nearest(t, s) && t < p as real && k <= 52 && Pow2(k) < p && IsDouble(p as real)
    requires (p as real - t) * Pow2(52 - k) as real < 0.5
    ensures p as real <= s
  {
    hide *;
    NearestWins(t, s, p as real);
    CloserThan(p, t, s, Pow2(52 - k));
    if s < p as real {
      Gap(s, p, k);
    }
  }

  lemma IntegerDouble(x: nat)
    requires x <= SIGNIFICAND
    ensures IsDouble(x as real)
  {
    assert x == x * Pow2(0);
    WholeDouble(x, x, 0);
  }

  lemma PowerDouble(f: nat)
    ensures IsDouble(Pow2(f) as real)
  {
    WholeDouble(Pow2(f), 1, f);
  }

  /** The rounded square root reaches every `p` whose square is at most `n`: with `v` the
      double nearest `n`, `t` its real root and `s` the double nearest `t`, cutting the
      fraction of `s` leaves at least `p`. */
  lemma RootReaches(n: nat, p: nat, v: real, t: real, s: real)
    requires n < TWO_63 && p * p <= n
    requires Nearest(n as real, v) && t >= 0.0 && t * t == v && Nearest(t, s)
    ensures p <= s.Floor
  {
    hide *;
    SmallRoot(n, p);
    IntegerDouble(p);
    WholeProduct(p, p);
    if v >= (p * p) as real {
      SquareOrder(t, p as real);
      NeverCrosses(t, s, p as real);
    } else {
      BelowSquare(n, p, v, t, s);
    }
  }

  lemma SmallRoot(n: nat, p: nat)
    requires n < TWO_63 && p * p <= n
    ensures p <= SIGNIFICAND
  {
    if p >= TWO_32 {
      NatSquares(TWO_32, p);
    }
  }

  /** The double nearest `n` can only fall below a square under `n` when `n` needs more than
      53 bits, and then by less than half a unit in its last place. */
  lemma ValueBelowSquare(n: nat, p: nat, v: real) returns (e: nat)
    requires n < TWO_63 && p * p <= n && Nearest(n as real, v) && v < (p * p) as real
    ensures 1 <= e <= 10 && p * p > Pow2(52 + e)
    ensures (p * p) as real - v <= Pow2(e - 1) as real
  {
    hide *;
    if n <= SIGNIFICAND {
      IntegerDouble(n);
      NeverCrosses(n as real, v, n as real);
    }
    e := Size(n);
    PowerDouble(52 + e);
    NeverCrosses(n as real, v, Pow2(52 + e) as real);
    RoundingError(n, v, e);
  }

  lemma BelowSquare(n: nat, p: nat, v: real, t: real, s: real)
    requires n < TWO_63 && p * p <= n && IsDouble(p as real)
    requires Nearest(n as real, v) && t >= 0.0 && t * t == v && Nearest(t, s)
    requires v < (p * p) as real
    ensures p as real <= s
  {
    hide *;
    var e := ValueBelowSquare(n, p, v);
    var k := 26 + e / 2;
    LargeEnough(p, e, k);
    RootNearInts(p, v, t, Pow2(52 - k), Pow2(e - 1));
    WholeProduct(p, p);
    SquareOrder(t, p as real);
    RoundsUp(p, t, s, k);
  }

  /** A value `(n as f64).sqrt() as u64` may take. */
  ghost predicate RootOf(n: nat, root: nat) {
    exists v: real, t: real, s: real :: RootVia(n, root, v, t, s)
  }

  ghost predicate RootVia(n: nat, root: nat, v: real, t: real, s: real) {
    Nearest(n as real, v) && t >= 0.0 && t * t == v && Nearest(t, s) && root == s.Floor
  }

  lemma RootOfReaches(n: nat, root: nat, p: nat)
    requires n < TWO_63 && p * p <= n && RootOf(n, root)
    ensures p <= root
  {
    var v: real, t: real, s: real :| RootVia(n, root, v, t, s);
    RootReaches(n, p, v, t, s);
  }
}
