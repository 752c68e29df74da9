/** `src/crypto.rs`: Diffie-Hellman and the SRP password check, over mathematical
    integers. SHA-256 and the key derivation are parameters. */
module KeyExchange {
  import opened Wrappers
  import opened Bytes
  import opened NumberTheory

  // ---- arithmetic modulo p ----

  function Pow(b: nat, e: nat): nat {
    if e == 0 then 1 else b * Pow(b, e - 1)
  }

  function ModPow(b: nat, e: nat, p: nat): (r: nat)
    requires p > 0
    ensures r < p
  {
    Pow(b, e) % p
  }

  ghost predicate Cong(a: int, b: int, p: nat)
    requires p > 0
  {
    a % p == b % p
  }

  lemma ModShift(a: int, k: int, p: nat)
    requires p > 0
    ensures (a + k * p) % p == a % p
  {
    assert a + k * p == p * (a / p + k) + a % p;
    DivUnique(a + k * p, p, a / p + k, a % p);
  }

  lemma CongDiffers(a: int, b: int, p: nat) returns (k: int)
    requires p > 0 && Cong(a, b, p)
    ensures a == b + k * p
  {
    k := a / p - b / p;
    assert a == (a / p) * p + a % p;
    assert b == (b / p) * p + b % p;
  }

  lemma CongMod(a: int, p: nat)
    requires p > 0
    ensures Cong(a % p, a, p)
  {
    assert a == a % p + (a / p) * p;
    ModShift(a % p, a / p, p);
  }

  lemma CongMul(a: int, b: int, c: int, p: nat)
    requires p > 0 && Cong(a, b, p)
    ensures Cong(a * c, b * c, p) && Cong(c * a, c * b, p)
  {
    var k := CongDiffers(a, b, p);
    assert a * c == b * c + (k * c) * p;
    ModShift(b * c, k * c, p);
  }

  lemma CongAdd(a: int, b: int, c: int, p: nat)
    requires p > 0 && Cong(a, b, p)
    ensures Cong(a + c, b + c, p)
  {
    var k := CongDiffers(a, b, p);
    ModShift(b + c, k, p);
  }

  lemma {:induction false} CongPow(a: nat, b: nat, e: nat, p: nat)
    requires p > 0 && Cong(a, b, p)
    ensures Cong(Pow(a, e), Pow(b, e), p)
  {
    if e > 0 {
      CongPow(a, b, e - 1, p);
      CongMul(Pow(a, e - 1), Pow(b, e - 1), a, p);
      CongMul(a, b, Pow(b, e - 1), p);
    }
  }

  /** Exponents add up, and the first power is the base. */
  lemma {:induction false} PowSum(b: nat, d: nat, e: nat)
    ensures Pow(b, d + e) == Pow(b, d) * Pow(b, e) && Pow(b, 1) == b
  {
    assert Pow(b, 1) == b * Pow(b, 0);
    if d > 0 {
      PowSum(b, d - 1, e);
      Associative(b, Pow(b, d - 1), Pow(b, e));
    }
  }

  lemma Associative(a: nat, b: nat, c: nat)
    ensures a * (b * c) == (a * b) * c
  {
  }

  lemma {:induction false} PowPow(b: nat, d: nat, e: nat)
    ensures Pow(Pow(b, d), e) == Pow(b, d * e)
  {
    if e > 0 {
      PowPow(b, d, e - 1);
      assert d * e == d + d * (e - 1);
      PowSum(b, d, d * (e - 1));
    } else {
      assert d * e == 0;
    }
  }

  /** Reducing the base first changes nothing. */
  lemma ModPowReduced(b: nat, d: nat, e: nat, p: nat)
    requires p > 0
    ensures ModPow(ModPow(b, d, p), e, p) == ModPow(b, d * e, p)
  {
    CongMod(Pow(b, d), p);
    CongPow(ModPow(b, d, p), Pow(b, d), e, p);
    PowPow(b, d, e);
  }

  // ---- 256-byte numbers ----

  const LIMIT: nat := Pow256(256)

  /** `biguint_to_256_bytes`; the copy panics when the number needs more bytes. */
  function BiguintTo256Bytes(n: nat): (r: Result<seq<byte>>)
    ensures r.Ok? <==> n < LIMIT
    ensures r.Ok? ==> |r.value| == 256 && FromBe(r.value) == n
    ensures r.Err? ==> r.error == Panic
  {
    MinBeLength(n, 256);
    var bytes := MinBe(n);
    if |bytes| > 256 then Err(Panic)
    else
      FromBeZeros(256 - |bytes|, bytes);
      FromBeMinBe(n);
      Ok(Zeros(256 - |bytes|) + bytes)
  }

  lemma {:induction false} Pow256Grows(m: nat, n: nat)
    requires m <= n
    ensures Pow256(m) <= Pow256(n)
  {
    if m < n {
      Pow256Grows(m, n - 1);
    }
  }

  // ---- Diffie-Hellman ----

  /** `dh_client_complete` and `dh_server_complete` are the same computation. */
  function DhComplete(public: nat, secret: nat, p: nat): (r: Result<seq<byte>>)
    requires p > 0
  {
    BiguintTo256Bytes(ModPow(public, secret, p))
  }

  /** Both sides arrive at the same 256 bytes, which are g^(ab) mod p. */
  lemma DhAgreement(g: nat, a: nat, b: nat, p: nat)
    requires 0 < p <= LIMIT
    ensures DhComplete(ModPow(g, b, p), a, p) == DhComplete(ModPow(g, a, p), b, p)
    ensures DhComplete(ModPow(g, b, p), a, p).Ok?
    ensures FromBe(DhComplete(ModPow(g, b, p), a, p).value) == ModPow(g, a * b, p)
  {
    ModPowReduced(g, b, a, p);
    ModPowReduced(g, a, b, p);
    assert a * b == b * a;
  }

  const HALF_LIMIT: nat := LIMIT / 2

  /** `verify_dh_params`; the subtraction `p - 1` panics at zero. */
  function VerifyDhParams(g: nat, ga: nat, p: nat): (r: Result<()>)
    ensures r == Ok(()) <==> 2 <= g <= 7 && 1 < ga && ga + 1 < p && HALF_LIMIT <= p < LIMIT
    ensures r.Err? ==> r.error == if p == 0 then Panic else DhVerification
  {
    if p == 0 then Err(Panic)
    else if !(2 <= g <= 7) then Err(DhVerification)
    else if ga <= 1 || ga >= p - 1 then Err(DhVerification)
    else if !(HALF_LIMIT <= p < LIMIT) then Err(DhVerification)
    else Ok(())
  }

  // ---- the SRP password check ----

  type Digest = d: seq<byte> | |d| == 32 witness Zeros(32)

  type Sha256 = seq<byte> -> Digest

  datatype SrpParams = SrpParams(salt1: seq<byte>, salt2: seq<byte>, g: u32, p: seq<byte>, b: seq<byte>, srpId: i64)

  datatype SrpAnswer = SrpAnswer(srpId: i64, a: seq<byte>, m1: Digest)

  /** `srp_derive_x`, with PBKDF2 given. */
  function DeriveX(sha: Sha256, kdf: (seq<byte>, seq<byte>) -> seq<byte>, password: seq<byte>, salt1: seq<byte>,
                   salt2: seq<byte>): nat {
    var inner := sha(salt1 + password + salt1);
    var ph1 := sha(salt2 + inner + salt2);
    FromBe(sha(salt2 + kdf(ph1, salt1) + salt2))
  }

  /** A `u32` generator always fits. */
  function GeneratorPad(g: u32): (r: seq<byte>)
    ensures BiguintTo256Bytes(g) == Ok(r)
  {
    Pow256Values();
    Pow256Grows(4, 256);
    BiguintTo256Bytes(g).value
  }

  /** M1 = H(H(p)^H(g) | H(salt1) | H(salt2) | A | B | H(S)), all numbers padded. */
  function Proof(sha: Sha256, params: SrpParams, gPad: seq<byte>, aPad: seq<byte>, bPad: seq<byte>,
                 s: nat): Result<Digest> {
    match BiguintTo256Bytes(s)
    case Err(e) => Err(e)
    case Ok(sPad) =>
      Ok(sha(Xor(sha(params.p), sha(gPad)) + sha(params.salt1) + sha(params.salt2) + aPad + bPad + sha(sPad)))
  }

  /** The random exponent: the first draw in `1..p`. */
  predicate Acceptable(draw: seq<byte>, p: nat) {
    0 < FromBe(draw) < p
  }

  /** `srp_check_password`, drawing exponents from `draws`; `None` when all were refused
      (the original keeps drawing). */
  method SrpCheckPassword(sha: Sha256, kdf: (seq<byte>, seq<byte>) -> seq<byte>, password: seq<byte>,
                          params: SrpParams, draws: seq<seq<byte>>) returns (r: Option<Result<SrpAnswer>>)
    ensures r.None? <==> forall d :: d in draws ==> !Acceptable(d, FromBe(params.p))
    ensures r.Some? ==>
              exists i :: 0 <= i < |draws| && Acceptable(draws[i], FromBe(params.p))
                          && (forall j :: 0 <= j < i ==> !Acceptable(draws[j], FromBe(params.p)))
                          && r.value == ClientAnswer(sha, kdf, password, params, FromBe(draws[i]))
  {
    var p := FromBe(params.p);
    var i := 0;
    while i < |draws|
      invariant 0 <= i <= |draws|
      invariant forall j :: 0 <= j < i ==> !Acceptable(draws[j], p)
    {
      var a := FromBe(draws[i]);
      if a == 0 || a >= p {
        i := i + 1;
        continue;
      }
      assert Acceptable(draws[i], p);
      return Some(ClientAnswer(sha, kdf, password, params, a));
    }
    r := None;
  }

  /** The number `t^(a + u*x) mod p` with `t = (B - k*v) mod p`, kept non-negative by adding `p`. */
  function ClientSecret(p: nat, b: nat, k: nat, v: nat, a: nat, u: nat, x: nat): (s: nat)
    requires p > 0
    ensures s < p
  {
    var kv := (k * v) % p;
    var t: nat := (b + p - kv) % p;
    ModPow(t, a + u * x, p)
  }

  function ClientAnswer(sha: Sha256, kdf: (seq<byte>, seq<byte>) -> seq<byte>, password: seq<byte>, params: SrpParams,
                        a: nat): Result<SrpAnswer>
    requires FromBe(params.p) > 0
  {
    var p, g := FromBe(params.p), params.g;
    var x := DeriveX(sha, kdf, password, params.salt1, params.salt2);
    var b := FromBe(params.b);
    var gPad := GeneratorPad(g);
    match (BiguintTo256Bytes(ModPow(g, a, p)), BiguintTo256Bytes(b))
    case (Ok(aPad), Ok(bPad)) =>
      var k := FromBe(sha(params.p + gPad));
      var u := FromBe(sha(aPad + bPad));
      var v := ModPow(g, x, p);
      (match Proof(sha, params, gPad, aPad, bPad, ClientSecret(p, b, k, v, a, u, x))
       case Err(e) => Err(e)
       case Ok(m1) => Ok(SrpAnswer(params.srpId, aPad, m1)))
    case _ => Err(Panic)
  }

  /** A 256-byte string is the padded form of its number. */
  lemma PaddedIs(s: seq<byte>, n: nat)
    requires |s| == 256 && FromBe(s) == n
    ensures BiguintTo256Bytes(n) == Ok(s)
  {
    BeFromBe(s);
    BeFromBe(BiguintTo256Bytes(n).value);
  }

  function MulAdd(c: nat, a: nat, b: nat): nat {
    c + a * b
  }

  /** The blinded value, from any `t` that `k*g^x` completes to the server's number. */
  lemma BlindedIs(p: nat, g: nat, b: nat, k: nat, x: nat, a: nat, u: nat, t: nat)
    requires p > 0 && Cong(MulAdd(t, k, Pow(g, x)), b, p)
    ensures ClientSecret(p, b, k, ModPow(g, x, p), a, u, x) == ModPow(t, MulAdd(a, u, x), p)
  {
    var v := ModPow(g, x, p);
    var kv := (k * v) % p;
    CongMod(Pow(g, x), p);
    CongMul(v, Pow(g, x), k, p);
    CongMod(k * v, p);
    CongAdd(b, t + k * Pow(g, x), p - kv, p);
    CongAdd(k * Pow(g, x), kv, t + p - kv, p);
    assert kv + (t + p - kv) == t + 1 * p;
    ModShift(t, 1, p);
    CongMod(b + p - kv, p);
    CongPow((b + p - kv) % p, t, a + u * x, p);
  }

  /** `x` from the password and the salts, `k` from modulus and generator, `u` from both
      public values, all of them padded. */
  predicate Derived(sha: Sha256, kdf: (seq<byte>, seq<byte>) -> seq<byte>, password: seq<byte>, params: SrpParams,
                    A: seq<byte>, B: seq<byte>, G: seq<byte>, x: nat, k: nat, u: nat) {
    var (salt1, salt2) := (params.salt1, params.salt2);
    var hashed := sha(salt2 + sha(salt1 + password + salt1) + salt2);
    && x == FromBe(sha(salt2 + kdf(hashed, salt1) + salt2))
    && k == FromBe(sha(params.p + G))
    && u == FromBe(sha(A + B))
  }

  /** The answer, spelled out: for the padded forms `A`, `B`, `G` and `S` of `g^a mod p`, the
      server's number, the generator and `t^(a + u*x) mod p`, where `t + k*g^x` is the server's
      number modulo `p`. */
  lemma AnswerMeans(sha: Sha256, kdf: (seq<byte>, seq<byte>) -> seq<byte>, password: seq<byte>, params: SrpParams,
                    a: nat, A: seq<byte>, B: seq<byte>, G: seq<byte>, S: seq<byte>, x: nat, k: nat, u: nat, t: nat)
    requires FromBe(params.p) > 0 && |A| == |B| == |G| == |S| == 256
    requires Derived(sha, kdf, password, params, A, B, G, x, k, u)
    requires FromBe(A) == ModPow(params.g, a, FromBe(params.p))
    requires FromBe(B) == FromBe(params.b) && FromBe(G) == params.g
    requires Cong(MulAdd(t, k, Pow(params.g, x)), FromBe(B), FromBe(params.p))
    requires FromBe(S) == ModPow(t, MulAdd(a, u, x), FromBe(params.p))
    ensures ClientAnswer(sha, kdf, password, params, a) ==
            Ok(SrpAnswer(params.srpId, A,
                         sha(Xor(sha(params.p), sha(G)) + sha(params.salt1) + sha(params.salt2) + A + B + sha(S))))
  {
    hide FromBe, ModPow, Pow, BiguintTo256Bytes, Xor, ClientSecret, MulAdd, Cong;
    PaddedIs(A, FromBe(A));
    PaddedIs(B, FromBe(B));
    PaddedIs(G, FromBe(G));
    PaddedIs(S, FromBe(S));
    BlindedIs(FromBe(params.p), params.g, FromBe(B), k, x, a, u, t);
    assert GeneratorPad(params.g) == G;
    assert DeriveX(sha, kdf, password, params.salt1, params.salt2) == x;
  }

  /** The server of RFC 5054, section 2.6: it stores the verifier `v = g^x mod p`, offers
      `B = (k*v + g^b) mod p` and computes `S = (A * v^u)^b mod p`. */
  function ServerPublic(p: nat, g: nat, k: nat, v: nat, b: nat): (r: nat)
    requires p > 0
    ensures r < p
  {
    (k * v + Pow(g, b)) % p
  }

  function ServerSecret(p: nat, a: nat, v: nat, u: nat, b: nat): (s: nat)
    requires p > 0
    ensures s < p
  {
    ModPow(a * ModPow(v, u, p), b, p)
  }

  function ServerProof(sha: Sha256, params: SrpParams, v: nat, b: nat, aPad: seq<byte>): Result<Digest>
    requires FromBe(params.p) > 0
  {
    var p := FromBe(params.p);
    match BiguintTo256Bytes(FromBe(params.b))
    case Ok(bPad) =>
      var u := FromBe(sha(aPad + bPad));
      Proof(sha, params, GeneratorPad(params.g), aPad, bPad, ServerSecret(p, FromBe(aPad), v, u, b))
    case _ => Err(Panic)
  }

  /** Subtracting `k*v` leaves `g^b`. */
  lemma Unblinded(p: nat, g: nat, k: nat, v: nat, b: nat)
    requires p > 0
    ensures var kv := (k * v) % p; ServerPublic(p, g, k, v, b) + p - kv >= 0
    ensures var kv := (k * v) % p;
            Cong((ServerPublic(p, g, k, v, b) + p - kv) % p, Pow(g, b), p)
  {
    var kv, y := (k * v) % p, Pow(g, b);
    var B := ServerPublic(p, g, k, v, b);
    CongMod(k * v + y, p);
    CongAdd(B, k * v + y, p - kv, p);
    CongMod(k * v, p);
    CongAdd(k * v, kv, y + p - kv, p);
    assert kv + (y + p - kv) == y + 1 * p;
    ModShift(y, 1, p);
    CongMod(B + p - kv, p);
  }

  /** Both secrets are g^(b * (a + u*x)) mod p, whatever the numbers. */
  lemma SecretsAgree(p: nat, g: nat, k: nat, x: nat, a: nat, b: nat, u: nat)
    requires p > 0
    ensures var v := ModPow(g, x, p);
            ClientSecret(p, ServerPublic(p, g, k, v, b), k, v, a, u, x) ==
            ServerSecret(p, ModPow(g, a, p), v, u, b) == ModPow(g, b * (a + u * x), p)
  {
    var v := ModPow(g, x, p);
    var kv := (k * v) % p;
    Unblinded(p, g, k, v, b);
    var t: nat := (ServerPublic(p, g, k, v, b) + p - kv) % p;
    CongPow(t, Pow(g, b), a + u * x, p);
    PowPow(g, b, a + u * x);
    ServerSide(p, g, x, a, b, u);
  }

  lemma ServerSide(p: nat, g: nat, x: nat, a: nat, b: nat, u: nat)
    requires p > 0
    ensures ServerSecret(p, ModPow(g, a, p), ModPow(g, x, p), u, b) == ModPow(g, b * (a + u * x), p)
  {
    var ga, vu := ModPow(g, a, p), ModPow(ModPow(g, x, p), u, p);
    ModPowReduced(g, x, u, p);
    CongMod(Pow(g, x * u), p);
    CongMod(Pow(g, a), p);
    CongMul(ga, Pow(g, a), vu, p);
    CongMul(vu, Pow(g, x * u), Pow(g, a), p);
    PowSum(g, a, x * u);
    CongPow(ga * vu, Pow(g, a + x * u), b, p);
    PowPow(g, a + x * u, b);
    assert (a + x * u) * b == b * (a + u * x);
  }

  /** A client that knows the password proves it to a server that holds its verifier, for
      every modulus of at most 2048 bits, every exponent and every hash. */
  lemma SrpAgreement(sha: Sha256, kdf: (seq<byte>, seq<byte>) -> seq<byte>, password: seq<byte>, params: SrpParams,
                     a: nat, b: nat)
    requires 0 < FromBe(params.p) <= LIMIT
    requires var p := FromBe(params.p);
             var x := DeriveX(sha, kdf, password, params.salt1, params.salt2);
             var k := FromBe(sha(params.p + GeneratorPad(params.g)));
             params.b == MinBe(ServerPublic(p, params.g, k, ModPow(params.g, x, p), b))
    ensures var p := FromBe(params.p);
            var x := DeriveX(sha, kdf, password, params.salt1, params.salt2);
            var answer := ClientAnswer(sha, kdf, password, params, a);
            && answer.Ok? && answer.value.srpId == params.srpId
            && FromBe(answer.value.a) == ModPow(params.g, a, p)
            && ServerProof(sha, params, ModPow(params.g, x, p), b, answer.value.a) == Ok(answer.value.m1)
  {
    var p, g := FromBe(params.p), params.g;
    var x := DeriveX(sha, kdf, password, params.salt1, params.salt2);
    var k := FromBe(sha(params.p + GeneratorPad(g)));
    var v := ModPow(g, x, p);
    FromBeMinBe(ServerPublic(p, g, k, v, b));
    var aPad := BiguintTo256Bytes(ModPow(g, a, p)).value;
    var bPad := BiguintTo256Bytes(FromBe(params.b)).value;
    var u := FromBe(sha(aPad + bPad));
    SecretsAgree(p, g, k, x, a, b, u);
  }
}
