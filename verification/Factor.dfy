/** `src/mtproto.rs`: factoring `pq` by trial division or Pollard's rho with Floyd's cycle
    detection. Big integers are mathematical ones; the random constant and the
    floating-point square root are parameters. */
module Factor {
  import opened Wrappers
  import opened Bytes
  import opened NumberTheory
  import opened FloatRoot

  /** `biguint_gcd`. */
  method BiguintGcd(a: nat, b: nat) returns (g: nat)
    ensures g == Gcd(a, b)
  {
    var x, y := a, b;
    while y != 0
      invariant Gcd(x, y) == Gcd(a, b)
      decreases y
    {
      var r := x % y;
      x := y;
      y := r;
    }
    g := x;
  }

  // ---- Pollard's rho ----

  /** `x^2 + c mod n`. */
  function Next(n: nat, c: nat, x: nat): (r: nat)
    requires n > 0
    ensures r < n
  {
    (x * x + c) % n
  }

  /** The sequence both pointers walk: 2, then its iterates under `Next`. */
  function Walk(n: nat, c: nat, i: nat): nat
    requires n > 0
  {
    if i == 0 then 2 else Next(n, c, Walk(n, c, i - 1))
  }

  function Distance(x: nat, y: nat): nat {
    if x > y then x - y else y - x
  }

  /** The gcd the loop computes in its `k`th round. */
  function Meeting(n: nat, c: nat, k: nat): nat
    requires n > 0
  {
    Gcd(Distance(Walk(n, c, k), Walk(n, c, 2 * k)), n)
  }

  lemma WalkRange(n: nat, c: nat, i: nat)
    requires n > 0 && i > 0
    ensures Walk(n, c, i) < n
  {
  }

  /** Equal points have equal futures. */
  lemma {:induction false} WalkRepeats(n: nat, c: nat, i: nat, j: nat, k: nat)
    requires n > 0 && Walk(n, c, i) == Walk(n, c, j)
    ensures Walk(n, c, i + k) == Walk(n, c, j + k)
  {
    if k > 0 {
      WalkRepeats(n, c, i, j, k - 1);
    }
  }

  /** After the walk enters its cycle, any multiple of the period changes nothing. */
  lemma {:induction false} WalkPeriod(n: nat, c: nat, i: nat, period: nat, at: nat, times: nat)
    requires n > 0 && Walk(n, c, i) == Walk(n, c, i + period) && at >= i
    ensures Walk(n, c, at) == Walk(n, c, at + period * times)
  {
    hide *;
    MulZero(period);
    if times > 0 {
      var back := at + period * (times - 1);
      WalkPeriod(n, c, i, period, at, times - 1);
      MulStep(period, times);
      WalkRepeats(n, c, i, i + period, back - i);
    }
  }

  lemma MulZero(a: nat)
    ensures a * 0 == 0
  {
  }

  lemma MulStep(a: nat, times: nat)
    requires times > 0
    ensures a * times == a * (times - 1) + a && a * (times - 1) >= 0
  {
  }

  lemma {:induction false} SubsetOfRange(s: set<nat>, n: nat)
    requires forall x :: x in s ==> x < n
    ensures |s| <= n
  {
    if n == 0 {
      assert s == {};
    } else {
      SubsetOfRange(s - {n - 1}, n - 1);
      assert s <= (s - {n - 1}) + {n - 1};
    }
  }

  function Elements(s: seq<nat>): set<nat> {
    set x | x in s
  }

  lemma {:induction false} DistinctSize(s: seq<nat>)
    requires forall i, j :: 0 <= i < j < |s| ==> s[i] != s[j]
    ensures |Elements(s)| == |s|
  {
    if s == [] {
      assert Elements(s) == {};
    } else {
      var k := |s| - 1;
      var before := s[..k];
      assert s == before + [s[k]];
      assert s[k] !in before;
      DistinctSize(before);
      assert Elements(s) == Elements(before) + {s[k]};
    }
  }

  lemma Pigeonhole(s: seq<nat>, n: nat) returns (i: nat, j: nat)
    requires |s| > n && forall x :: x in s ==> x < n
    ensures i < j < |s| && s[i] == s[j]
  {
    if forall i, j :: 0 <= i < j < |s| ==> s[i] != s[j] {
      DistinctSize(s);
      SubsetOfRange(Elements(s), n);
      assert false;
    }
    i, j :| 0 <= i < j < |s| && s[i] == s[j];
  }

  /** `n + 1` points share `n` residues. */
  lemma Collision(n: nat, c: nat) returns (i: nat, j: nat)
    requires n > 0
    ensures 1 <= i < j <= n + 1 && Walk(n, c, i) == Walk(n, c, j)
  {
    var s := seq(n + 1, k requires 0 <= k <= n => Walk(n, c, k + 1));
    hide *;
    forall x | x in s ensures x < n {
      var k :| 0 <= k < |s| && s[k] == x;
      WalkRange(n, c, k + 1);
    }
    i, j := Pigeonhole(s, n);
    i, j := i + 1, j + 1;
  }

  /** Floyd: the slow and the fast pointer meet within `n` rounds. */
  lemma Floyd(n: nat, c: nat) returns (k: nat)
    requires n > 0
    ensures 1 <= k <= n && Walk(n, c, k) == Walk(n, c, 2 * k)
  {
    hide *;
    var i, j := Collision(n, c);
    var times := MultipleFrom(i, j - i);
    k := (j - i) * times;
    WalkPeriod(n, c, i, j - i, k, times);
  }

  /** Some multiple of `period` lies among the `period` numbers from `i` on. */
  lemma MultipleFrom(i: nat, period: nat) returns (times: nat)
    requires period > 0
    ensures i <= period * times < i + period
  {
    times := (i + period - 1) / period;
  }

  lemma MeetingRange(n: nat, c: nat, k: nat)
    requires n > 0 && k > 0
    ensures 1 <= Meeting(n, c, k) <= n && n % Meeting(n, c, k) == 0
    ensures Meeting(n, c, k) == n <==> Walk(n, c, k) == Walk(n, c, 2 * k)
  {
    WalkRange(n, c, k);
    WalkRange(n, c, 2 * k);
    GcdRange(Distance(Walk(n, c, k), Walk(n, c, 2 * k)), n);
  }

  /** `rho_attempt`: ends within `n` rounds for every `c`, at the first round whose gcd is
      not one, with that gcd and its cofactor unless the pointers have met modulo `n`. */
  method RhoAttempt(n: nat, c: nat) returns (r: Option<(nat, nat)>, ghost rounds: nat)
    requires n >= 2
    ensures 1 <= rounds <= n
    ensures forall k :: 1 <= k < rounds ==> Meeting(n, c, k) == 1
    ensures r.Some? ==> r.value.0 * r.value.1 == n && 1 < r.value.0 < n
    ensures r.Some? ==> r.value.0 == Meeting(n, c, rounds)
    ensures r.None? <==> Walk(n, c, rounds) == Walk(n, c, 2 * rounds)
  {
    hide Next, Gcd;
    var x, y, d := 2, 2, 1;
    ghost var met := Floyd(n, c);
    MeetingRange(n, c, met);
    rounds := 0;
    while d == 1
      invariant rounds <= met && x == Walk(n, c, rounds) && y == Walk(n, c, 2 * rounds)
      invariant rounds > 0 ==> d == Meeting(n, c, rounds)
      invariant rounds == 0 ==> d == 1
      invariant forall k :: 1 <= k < rounds ==> Meeting(n, c, k) == 1
      decreases met - rounds
    {
      x := Next(n, c, x);
      y := Next(n, c, y);
      assert y == Walk(n, c, 2 * rounds + 1);
      y := Next(n, c, y);
      rounds := rounds + 1;
      assert y == Walk(n, c, 2 * rounds);
      var diff := if x > y then x - y else y - x;
      d := BiguintGcd(diff, n);
    }
    MeetingRange(n, c, rounds);
    if d != n {
      r := Some((d, n / d));
      ExactQuotient(n, d);
    } else {
      r := None;
    }
  }

  // ---- trial division and the whole factorisation ----

  /** An odd trial divisor the loop stops at. */
  predicate Hit(n: nat, root: nat, d: nat) {
    3 <= d <= root && d % 2 == 1 && n % d == 0
  }

  method TrialDivision(n: nat, root: nat) returns (f: (nat, nat))
    requires n >= 2
    ensures f.0 * f.1 == n
    ensures if exists d: nat :: Hit(n, root, d)
            then Hit(n, root, f.0) && forall d: nat :: Hit(n, root, d) ==> f.0 <= d
            else f == (n, 1)
  {
    var d := 3;
    hide Hit;
    FirstOdd(n, root);
    while d <= root
      invariant d % 2 == 1 && d >= 3
      invariant forall e: nat :: Hit(n, root, e) ==> d <= e <= root
      decreases root - d
    {
      if n % d == 0 {
        IsHit(n, root, d);
        ExactQuotient(n, d);
        return (d, n / d);
      }
      NextOdd(n, root, d);
      d := d + 2;
    }
    f := (n, 1);
  }

  lemma FirstOdd(n: nat, root: nat)
    ensures forall e: nat :: Hit(n, root, e) ==> 3 <= e <= root
  {
  }

  lemma IsHit(n: nat, root: nat, d: nat)
    requires 3 <= d <= root && d % 2 == 1 && n % d == 0
    ensures Hit(n, root, d)
  {
  }

  lemma NextOdd(n: nat, root: nat, d: nat)
    requires 3 <= d <= root && d % 2 == 1 && n % d != 0
    ensures forall e: nat :: Hit(n, root, e) && d <= e ==> d + 2 <= e
  {
  }

  /** `pollard_rho_factor`, with the truncated square root and the random constant given. */
  method PollardRhoFactor(n: nat, root: nat, c: nat) returns (r: Result<(nat, nat)>)
    ensures n < 2 ==> r == Err(Crypto)
    ensures r.Ok? ==> r.value.0 * r.value.1 == n
    ensures 2 <= n < TWO_63 ==> r.Ok?
    ensures 2 <= n < TWO_63 ==>
              if exists d: nat :: Hit(n, root, d)
              then Hit(n, root, r.value.0) && forall d: nat :: Hit(n, root, d) ==> r.value.0 <= d
              else r.value == (n, 1)
    ensures n >= TWO_63 && r.Ok? ==> 1 < r.value.0 < n
    ensures n >= TWO_63 && r.Err? ==>
              r.error == Crypto && exists k :: 1 <= k <= n && Walk(n, c, k) == Walk(n, c, 2 * k)
  {
    if n == 0 { return Err(Crypto); }
    if n == 1 { return Err(Crypto); }
    if n < TWO_63 {
      var f := TrialDivision(n, root);
      return Ok(f);
    }
    var f, rounds := RhoAttempt(n, c);
    if f.Some? { return Ok(f.value); }
    r := Err(Crypto);
  }

  /** `factor_pq` for `n = p * q`, odd primes in order: whenever it succeeds it returns
      exactly those primes, and it always succeeds below 2^63. */
  method FactorPq(n: nat, root: nat, c: nat, ghost p: nat, ghost q: nat) returns (r: Result<(seq<byte>, seq<byte>)>)
    requires n == p * q && Prime(p) && Prime(q) && 3 <= p <= q && p % 2 == 1
    requires n < TWO_63 ==> RootOf(n, root)
    ensures r.Ok? ==> r.value == (MinBe(p), MinBe(q))
    ensures n < TWO_63 ==> r.Ok?
    ensures r.Err? ==> r.error == Crypto
  {
    var f := PollardRhoFactor(n, root, c);
    ProperFactor(n, p, q);
    if f.Err? { return Err(f.error); }
    var (a, b) := f.value;
    if n < TWO_63 {
      BelowRoot(p, q);
      RootOfReaches(n, root, p);
      IsHit(n, root, p);
    }
    ProperCofactor(n, a, b);
    OnlyFactors(p, q, a, b);
    var lo, hi := if a < b then a else b, if a < b then b else a;
    r := Ok((MinBe(lo), MinBe(hi)));
  }

  lemma BelowRoot(p: nat, q: nat)
    requires p <= q
    ensures p * p <= p * q
  {
  }

  lemma ProperFactor(n: nat, p: nat, q: nat)
    requires n == p * q && p >= 3 && q >= 3
    ensures n >= 9 && p < n && n % p == 0
  {
    MulOrder(p, 1, q);
    MulOrder(p, 2, q);
    DivideExactly(n, p, q);
  }

  lemma ProperCofactor(n: nat, a: nat, b: nat)
    requires a * b == n && 0 < a < n
    ensures b > 1
  {
    MulOrder(a, 1, b);
  }
}
