/** The Diffie-Hellman handshake: `AuthKeyCreation` of `src/mtproto.rs` and the retry
    ladder of `src/api.rs`. AES, SHA-1, the secrets and the paddings are parameters; the
    server is any function of what it was sent. */
module AuthKey {
  import opened Wrappers
  import opened Bytes
  import opened Serialize
  import opened Ige
  import opened KeyExchange
  import opened NumberTheory
  import opened Session

  const SERVER_DH_PARAMS_OK: u32 := 0xd0e8075c
  const SERVER_DH_PARAMS_FAIL: u32 := 0x79cbcd00
  const SERVER_DH_INNER_DATA: u32 := 0xb5890dba
  const CLIENT_DH_INNER_DATA: u32 := 0x6643b654
  const SET_CLIENT_DH_PARAMS: u32 := 0xf5045f1f
  const DH_GEN_OK: u32 := 0x3bcbf734
  const DH_GEN_RETRY: u32 := 0x46dc1fb9
  const DH_GEN_FAIL: u32 := 0xa69dae02
  const MAX_DH_ATTEMPTS: nat := 4

  type Nonce = n: seq<byte> | |n| == 16 witness Zeros(16)
  type Hash20 = h: seq<byte> | |h| == 20 witness Zeros(20)
  type Sha1 = seq<byte> -> Hash20

  /** The fields of `AuthKeyCreation` the Diffie-Hellman steps read and write. The field
      the original calls `a` holds the client's secret. */
  datatype Handshake = Handshake(
    nonce: Nonce,
    serverNonce: Option<Nonce>,
    newNonce: Option<Digest>,
    g: Option<u32>,
    dhPrime: Option<seq<byte>>,
    gA: Option<nat>,
    a: Option<nat>,
    auxHash: Option<u64>,
    tempKey: Option<Digest>,
    tempIv: Option<Digest>,
    retryId: u64)

  // ---- step 6: the server's parameters ----

  function TempKey(sha1: Sha1, newNonce: Digest, serverNonce: Nonce): Digest {
    sha1(newNonce + serverNonce) + sha1(serverNonce + newNonce)[0..12]
  }

  function TempIv(sha1: Sha1, newNonce: Digest, serverNonce: Nonce): Digest {
    sha1(serverNonce + newNonce)[12..20] + sha1(newNonce + newNonce) + newNonce[0..4]
  }

  /** Key and initialisation vector are 64 bytes cut in two: three hashes and four bytes of
      the new nonce. */
  lemma TempKeyMeans(sha1: Sha1, newNonce: Digest, serverNonce: Nonce)
    ensures TempKey(sha1, newNonce, serverNonce) + TempIv(sha1, newNonce, serverNonce) ==
            sha1(newNonce + serverNonce) + sha1(serverNonce + newNonce) + sha1(newNonce + newNonce) + newNonce[..4]
  {
  }

  /** A read with its cursor, as a result. */
  function Taken<T>(step: Step<T>): Result<(T, nat)> {
    match step
    case Got(v, p) => Ok((v, p))
    case Fail(e, _) => Err(e)
  }

  /** The encrypted answer inside `server_DH_params_ok`. */
  function AnswerOf(s: Handshake, data: seq<byte>): Result<seq<byte>> {
    var ctor :- Taken(GetU32(data, 0));
    if ctor.0 == SERVER_DH_PARAMS_OK then
      var nonce :- Taken(GetRaw(data, ctor.1, 16));
      if nonce.0 != s.nonce then Err(Protocol)
      else
        var server :- Taken(GetRaw(data, nonce.1, 16));
        if s.serverNonce.None? then Err(Panic)
        else if server.0 != s.serverNonce.value then Err(Protocol)
        else
          var answer :- Taken(GetBytes(data, server.1));
          Ok(answer.0)
    else if ctor.0 == SERVER_DH_PARAMS_FAIL then Err(Protocol)
    else Err(UnexpectedResponse)
  }

  /** The generator inside `server_DH_inner_data`, after two unchecked nonces. */
  function InnerG(inner: seq<byte>): Result<(u32, nat)> {
    var ctor :- Taken(GetU32(inner, 0));
    if ctor.0 != SERVER_DH_INNER_DATA then Err(UnexpectedResponse)
    else
      var nonce :- Taken(GetRaw(inner, ctor.1, 16));
      var server :- Taken(GetRaw(inner, nonce.1, 16));
      Taken(GetU32(inner, server.1))
  }

  /** What `parse_server_dh_params` leaves behind, and its result. */
  function ParsedDh(s: Handshake, inverse: Cipher, sha1: Sha1, data: seq<byte>): (Handshake, Result<()>) {
    match AnswerOf(s, data)
    case Err(e) => (s, Err(e))
    case Ok(encrypted) =>
      if s.newNonce.None? || s.serverNonce.None? then (s, Err(Panic))
      else
        var key := TempKey(sha1, s.newNonce.value, s.serverNonce.value);
        var iv := TempIv(sha1, s.newNonce.value, s.serverNonce.value);
        var keyed := s.(tempKey := Some(key), tempIv := Some(iv));
        if |encrypted| % 16 != 0 then (keyed, Err(Crypto))
        else
          var answer := Decrypted(inverse(key), iv[..16], iv[16..], encrypted);
          if |answer| < 20 then (keyed, Err(Panic))
          else ParsedInner(keyed, answer[20..])
  }

  function ParsedInner(s: Handshake, inner: seq<byte>): (Handshake, Result<()>) {
    match InnerG(inner)
    case Err(e) => (s, Err(e))
    case Ok(g) =>
      var withG := s.(g := Some(g.0));
      match Taken(GetBytes(inner, g.1))
      case Err(e) => (withG, Err(e))
      case Ok(prime) =>
        var withPrime := withG.(dhPrime := Some(prime.0));
        match Taken(GetBytes(inner, prime.1))
        case Err(e) => (withPrime, Err(e))
        case Ok(ga) =>
          var all := withPrime.(gA := Some(FromBe(ga.0)));
          match Taken(GetU32(inner, ga.1))
          case Err(e) => (all, Err(e))
          case Ok(_) => (all, VerifyDhParams(g.0, FromBe(ga.0), FromBe(prime.0)))
  }

  /** A complete answer whose prime is zero. */
  predicate ZeroPrime(inner: seq<byte>) {
    InnerG(inner).Ok? &&
    var prime := Taken(GetBytes(inner, InnerG(inner).value.1));
    prime.Ok? && FromBe(prime.value.0) == 0 &&
    var ga := Taken(GetBytes(inner, prime.value.1));
    ga.Ok? && Taken(GetU32(inner, ga.value.1)).Ok?
  }

  /** What makes the parse panic: an encrypted answer of no or one block, or a complete answer
      whose prime is zero. */
  predicate AnswerPanics(s: Handshake, inverse: Cipher, sha1: Sha1, data: seq<byte>)
    requires s.newNonce.Some? && s.serverNonce.Some?
  {
    AnswerOf(s, data).Ok? &&
    var encrypted := AnswerOf(s, data).value;
    || |encrypted| == 0 || |encrypted| == 16
    || (|encrypted| % 16 == 0 && |encrypted| > 16 && ZeroPrime(AnswerPlain(s, inverse, sha1, encrypted)[20..]))
  }

  function AnswerPlain(s: Handshake, inverse: Cipher, sha1: Sha1, encrypted: seq<byte>): (r: seq<byte>)
    requires s.newNonce.Some? && s.serverNonce.Some? && |encrypted| % 16 == 0
    ensures |r| == |encrypted|
  {
    var iv := TempIv(sha1, s.newNonce.value, s.serverNonce.value);
    Decrypted(inverse(TempKey(sha1, s.newNonce.value, s.serverNonce.value)), iv[..16], iv[16..], encrypted)
  }

  /** In the documented order of steps, `parse_server_dh_params` panics exactly then: the reads
      themselves never do, as whole blocks less the hash are a multiple of four bytes. */
  lemma ParsePanics(s: Handshake, inverse: Cipher, sha1: Sha1, data: seq<byte>)
    requires s.newNonce.Some? && s.serverNonce.Some?
    ensures ParsedDh(s, inverse, sha1, data).1 == Err(Panic) <==> AnswerPanics(s, inverse, sha1, data)
  {
    OuterNeverPanics(s, data);
    hide AnswerOf, ZeroPrime, ParsedInner, Decrypted, TempKey, TempIv;
    if AnswerOf(s, data).Ok? {
      var encrypted := AnswerOf(s, data).value;
      if |encrypted| % 16 == 0 && |encrypted| >= 20 {
        var answer := AnswerPlain(s, inverse, sha1, encrypted);
        WholeWords(|answer|);
        var key := TempKey(sha1, s.newNonce.value, s.serverNonce.value);
        var iv := TempIv(sha1, s.newNonce.value, s.serverNonce.value);
        InnerPanics(s.(tempKey := Some(key), tempIv := Some(iv)), answer[20..]);
      }
    }
  }

  lemma WholeWords(n: nat)
    requires n % 16 == 0 && n >= 20
    ensures (n - 20) % 4 == 0
  {
    var k := n / 16;
    assert n - 20 == 4 * (4 * k - 5);
  }

  lemma OuterNeverPanics(s: Handshake, data: seq<byte>)
    requires s.serverNonce.Some?
    ensures AnswerOf(s, data) != Err(Panic)
  {
  }

  lemma InnerPanics(s: Handshake, inner: seq<byte>)
    requires |inner| % 4 == 0
    ensures ParsedInner(s, inner).1 == Err(Panic) <==> ZeroPrime(inner)
  {
    GeneratorRead(inner);
    hide InnerG, GetBytes, GetU32, FromBe;
    if InnerG(inner).Ok? {
      var p0 := InnerG(inner).value.1;
      BytesInside(inner, p0);
      var prime := GetBytes(inner, p0);
      if prime.Got? {
        BytesInside(inner, prime.next);
        var ga := GetBytes(inner, prime.next);
        if ga.Got? {
          WordInside(inner, ga.next);
        }
      }
    }
  }

  lemma GeneratorRead(inner: seq<byte>)
    ensures InnerG(inner) != Err(Panic)
    ensures InnerG(inner).Ok? ==> InnerG(inner).value.1 <= |inner|
  {
  }

  /** From a position inside, a string is read or refused, and the cursor stays inside. */
  lemma BytesInside(data: seq<byte>, pos: nat)
    requires pos <= |data| && |data| % 4 == 0
    ensures GetBytes(data, pos).Fail? ==> GetBytes(data, pos).error != Panic
    ensures GetBytes(data, pos).Got? ==> GetBytes(data, pos).next <= |data|
  {
    hide FromLe, Pow256, GetBody;
    forall at: nat, len: nat
      ensures var r := GetBody(data, at, len);
              if r.Fail? then at <= |data| ==> r.error != Panic else r.next <= |data|
    {
      BodyInside(data, at, len);
    }
  }

  lemma BodyInside(data: seq<byte>, at: nat, len: nat)
    requires |data| % 4 == 0
    ensures var r := GetBody(data, at, len);
            if r.Fail? then at <= |data| ==> r.error != Panic else r.next <= |data|
  {
    hide FromLe, Pow256;
  }

  lemma WordInside(data: seq<byte>, pos: nat)
    requires pos <= |data|
    ensures GetU32(data, pos).Fail? ==> GetU32(data, pos).error != Panic
  {
    hide FromLe;
  }

  /** An answer of no bytes at all is enough. */
  lemma EmptyAnswerPanics(s: Handshake, inverse: Cipher, sha1: Sha1)
    requires s.newNonce.Some? && s.serverNonce.Some?
    ensures var data := Le(SERVER_DH_PARAMS_OK, 4) + (s.nonce + (s.serverNonce.value + EncBytes([], 36)));
            ParsedDh(s, inverse, sha1, data).1 == Err(Panic)
  {
    var data := Le(SERVER_DH_PARAMS_OK, 4) + (s.nonce + (s.serverNonce.value + EncBytes([], 36)));
    hide ParsedInner, Decrypted, TempKey, TempIv, FromLe, Le, EncBytes, GetBytes;
    assert data[0..4] == Le(SERVER_DH_PARAMS_OK, 4) && data[4..20] == s.nonce && data[20..36] == s.serverNonce.value;
    assert data[36..36 + |EncBytes([], 36)|] == EncBytes([], 36);
    ReadBackU32(data, 0, SERVER_DH_PARAMS_OK);
    ReadBackBytes([], 36, data, 36);
    assert AnswerOf(s, data) == Ok([]);
    ParsePanics(s, inverse, sha1, data);
  }

  // ---- step 7: the client's answer ----

  function Inner(nonce: Nonce, serverNonce: Nonce, retryId: u64, gb: nat): (r: seq<byte>)
    ensures |r| == 44 + |EncBytes(MinBe(gb), 44)|
  {
    Le(CLIENT_DH_INNER_DATA, 4) + nonce + serverNonce + Le(retryId, 8) + EncBytes(MinBe(gb), 44)
  }

  /** Hash, data, 16 random bytes, zeros up to the block size. */
  function WithHash(sha1: Sha1, inner: seq<byte>, padding: Nonce): (r: seq<byte>)
    ensures |r| % 16 == 0
  {
    var body := sha1(inner) + inner + padding;
    body + Zeros((16 - |body| % 16) % 16)
  }

  function SetClientDh(aes: Cipher, sha1: Sha1, key: Digest, iv: Digest, nonce: Nonce, serverNonce: Nonce,
                       retryId: u64, gb: nat, padding: Nonce): seq<byte>
  {
    var plain := WithHash(sha1, Inner(nonce, serverNonce, retryId, gb), padding);
    Le(SET_CLIENT_DH_PARAMS, 4) + nonce + serverNonce
    + EncBytes(Encrypted(aes(key), iv[..16], iv[16..], plain), 36)
  }

  /** The 64 high bits of the SHA-1 of a key. */
  function AuxHash(sha1: Sha1, key: seq<byte>): u64 {
    Pow256Values();
    FromBe(sha1(key)[0..8])
  }

  lemma AuxHashMeans(sha1: Sha1, key: seq<byte>)
    ensures AuxHash(sha1, key) == FromBe(sha1(key)) / Pow256(12)
  {
    hide Pow256, FromBe;
    var h := sha1(key);
    var high, low := h[0..8], h[8..20];
    assert h == high + low;
    FromBeSplit(high, low);
    HighPart(FromBe(high), FromBe(low), Pow256(12));
  }

  lemma HighPart(high: nat, low: nat, d: nat)
    requires low < d
    ensures (high * d + low) / d == high
  {
    DivUnique(high * d + low, d, high, low);
  }

  /** What `build_set_client_dh_params` leaves behind with secret `b`, and its message. */
  function BuiltSet(s: Handshake, aes: Cipher, sha1: Sha1, b: nat, padding: Nonce): (Handshake, Result<seq<byte>>) {
    if s.dhPrime.None? then (s, Err(Panic))
    else if s.g.None? then (s, Err(NoAuthKey))
    else if FromBe(s.dhPrime.value) == 0 then (s, Err(Panic))
    else
      var p := FromBe(s.dhPrime.value);
      var drawn := s.(a := Some(b));
      if s.gA.None? then (drawn, Err(NoAuthKey))
      else match BiguintTo256Bytes(ModPow(s.gA.value, b, p))
        case Err(e) => (drawn, Err(e))
        case Ok(candidate) =>
          var hashed := drawn.(auxHash := Some(AuxHash(sha1, candidate)));
          if s.serverNonce.None? then (hashed, Err(Panic))
          else if s.tempKey.None? || s.tempIv.None? then (hashed, Err(NoAuthKey))
          else (hashed, Ok(SetClientDh(aes, sha1, s.tempKey.value, s.tempIv.value, s.nonce, s.serverNonce.value,
                                       s.retryId, ModPow(s.g.value, b, p), padding)))
  }

  // ---- step 9 ----

  datatype Verdict = DhOk | DhRetry | DhFail

  function ParseDhGen(data: seq<byte>): Result<Verdict> {
    var ctor :- Taken(GetU32(data, 0));
    var nonce :- Taken(GetRaw(data, ctor.1, 16));
    var server :- Taken(GetRaw(data, nonce.1, 16));
    if ctor.0 == DH_GEN_OK || ctor.0 == DH_GEN_RETRY || ctor.0 == DH_GEN_FAIL then
      var hash :- Taken(GetRaw(data, server.1, 16));
      Ok(if ctor.0 == DH_GEN_OK then DhOk else if ctor.0 == DH_GEN_RETRY then DhRetry else DhFail)
    else Err(UnexpectedResponse)
  }

  /** An answer of step 9: a constructor id, both nonces and the hash, whatever follows. */
  predicate Says(data: seq<byte>, ctor: u32) {
    |data| >= 52 && data[..4] == Le(ctor, 4)
  }

  const KNOWN_ANSWERS := {Le(DH_GEN_OK, 4), Le(DH_GEN_RETRY, 4), Le(DH_GEN_FAIL, 4)}

  /** The three verdicts, byte by byte; any other id is refused once both nonces are there. */
  lemma VerdictMeans(data: seq<byte>)
    ensures ParseDhGen(data) == Ok(DhOk) <==> Says(data, DH_GEN_OK)
    ensures ParseDhGen(data) == Ok(DhRetry) <==> Says(data, DH_GEN_RETRY)
    ensures ParseDhGen(data) == Ok(DhFail) <==> Says(data, DH_GEN_FAIL)
    ensures ParseDhGen(data).Err? ==>
              ParseDhGen(data) == Err(if |data| >= 36 && data[..4] !in KNOWN_ANSWERS then UnexpectedResponse
                                      else Serialization)
  {
    Pow256Values();
    FromLeLe(DH_GEN_OK, 4);
    FromLeLe(DH_GEN_RETRY, 4);
    FromLeLe(DH_GEN_FAIL, 4);
    if |data| >= 4 {
      LeFromLe(data[..4]);
      assert data[0..4] == data[..4];
    }
  }

  /** The bytes of an answer, given part by part. */
  lemma AnswerSays(ctor: u32, nonce: Nonce, serverNonce: Nonce, hash: Nonce, rest: seq<byte>)
    ensures Says(Le(ctor, 4) + nonce + serverNonce + hash + rest, ctor)
  {
    hide Le;
    var data := Le(ctor, 4) + nonce + serverNonce + hash + rest;
    assert data[..4] == Le(ctor, 4);
  }

  class AuthKeyCreation {
    const nonce: Nonce
    var serverNonce: Option<Nonce>
    var newNonce: Option<Digest>
    var g: Option<u32>
    var dhPrime: Option<seq<byte>>
    var gA: Option<nat>
    var a: Option<nat>
    var auxHash: Option<u64>
    var tempKey: Option<Digest>
    var tempIv: Option<Digest>
    var retryId: u64

    /** All fields as one value. */
    ghost function State(): Handshake
      reads this
    {
      Handshake(nonce, serverNonce, newNonce, g, dhPrime, gA, a, auxHash, tempKey, tempIv, retryId)
    }

    constructor (nonce: Nonce)
      ensures State() == Handshake(nonce, None, None, None, None, None, None, None, None, None, 0)
    {
      this.nonce := nonce;
      serverNonce, newNonce, g, dhPrime, gA := None, None, None, None, None;
      a, auxHash, tempKey, tempIv, retryId := None, None, None, None, 0;
    }

    method ParseServerDhParams(inverse: Cipher, sha1: Sha1, data: seq<byte>) returns (r: Result<()>)
      modifies this
      ensures (State(), r) == ParsedDh(old(State()), inverse, sha1, data)
    {
      var reader := new TLReader(data);
      var ctor :- reader.ReadU32();
      if ctor == SERVER_DH_PARAMS_FAIL { return Err(Protocol); }
      if ctor != SERVER_DH_PARAMS_OK { return Err(UnexpectedResponse); }
      var echoed :- reader.ReadRaw(16);
      if echoed != nonce { return Err(Protocol); }
      var server :- reader.ReadRaw(16);
      if serverNonce.None? { return Err(Panic); }
      if server != serverNonce.value { return Err(Protocol); }
      var encrypted :- reader.ReadBytes();
      if newNonce.None? { return Err(Panic); }
      var key := TempKey(sha1, newNonce.value, server);
      var iv := TempIv(sha1, newNonce.value, server);
      tempKey, tempIv := Some(key), Some(iv);
      var answer := new byte[|encrypted|](i requires 0 <= i < |encrypted| => encrypted[i]);
      assert answer[..] == encrypted;
      var _ :- AesIgeDecrypt(answer, inverse(key), iv);
      if answer.Length < 20 { return Err(Panic); }
      r := ParseInner(answer[20..]);
    }

    method ParseInner(inner: seq<byte>) returns (r: Result<()>)
      modifies this
      ensures (State(), r) == ParsedInner(old(State()), inner)
    {
      var reader := new TLReader(inner);
      var ctor :- reader.ReadU32();
      if ctor != SERVER_DH_INNER_DATA { return Err(UnexpectedResponse); }
      var _ :- reader.ReadRaw(16);
      var _ :- reader.ReadRaw(16);
      var generator :- reader.ReadU32();
      g := Some(generator);
      var prime :- reader.ReadBytes();
      dhPrime := Some(prime);
      var ga :- reader.ReadBytes();
      gA := Some(FromBe(ga));
      var _ :- reader.ReadU32();
      r := VerifyDhParams(generator, FromBe(ga), FromBe(prime));
    }

    method BuildSetClientDhParams(aes: Cipher, sha1: Sha1, b: nat, padding: Nonce) returns (r: Result<seq<byte>>)
      modifies this
      ensures (State(), r) == BuiltSet(old(State()), aes, sha1, b, padding)
    {
      if dhPrime.None? { return Err(Panic); }
      if g.None? { return Err(NoAuthKey); }
      var p := FromBe(dhPrime.value);
      if p == 0 { return Err(Panic); }
      var gb := ModPow(g.value, b, p);
      a := Some(b);
      if gA.None? { return Err(NoAuthKey); }
      var candidate :- BiguintTo256Bytes(ModPow(gA.value, b, p));
      auxHash := Some(AuxHash(sha1, candidate));
      if serverNonce.None? { return Err(Panic); }
      var inner := BuildInner(serverNonce.value, gb);
      var plain := WithHash(sha1, inner, padding);
      if tempKey.None? || tempIv.None? { return Err(NoAuthKey); }
      var message := BuildMessage(aes, tempKey.value, tempIv.value, serverNonce.value, plain);
      r := Ok(message);
    }

    method BuildInner(serverNonce: Nonce, gb: nat) returns (r: seq<byte>)
      ensures r == Inner(nonce, serverNonce, retryId, gb)
    {
      hide Le, EncBytes, MinBe;
      var w := new TLWriter();
      w.WriteU32(CLIENT_DH_INNER_DATA);
      w.WriteRawBytes(nonce);
      w.WriteRawBytes(serverNonce);
      w.WriteI64(I64Of(retryId));
      assert U64Of(I64Of(retryId)) == retryId;
      w.WriteBytes(MinBe(gb));
      r := w.buf;
    }

    method BuildMessage(aes: Cipher, key: Digest, iv: Digest, serverNonce: Nonce,
                        plain: seq<byte>) returns (r: seq<byte>)
      requires |plain| % 16 == 0
      ensures r == Le(SET_CLIENT_DH_PARAMS, 4) + nonce + serverNonce
                   + EncBytes(Encrypted(aes(key), iv[..16], iv[16..], plain), 36)
    {
      var encrypted := new byte[|plain|](i requires 0 <= i < |plain| => plain[i]);
      assert encrypted[..] == plain;
      var done := AesIgeEncrypt(encrypted, aes(key), iv);
      var w := new TLWriter();
      w.WriteU32(SET_CLIENT_DH_PARAMS);
      w.WriteRawBytes(nonce);
      w.WriteRawBytes(serverNonce);
      w.WriteBytes(encrypted[..]);
      r := w.buf;
    }

    /** `compute_auth_key`. */
    method ComputeAuthKey() returns (r: Result<seq<byte>>)
      ensures r == if dhPrime.None? || gA.None? || a.None? then Err(NoAuthKey)
                   else if FromBe(dhPrime.value) == 0 then Err(Panic)
                   else DhComplete(gA.value, a.value, FromBe(dhPrime.value))
    {
      if dhPrime.None? || gA.None? || a.None? { return Err(NoAuthKey); }
      var p := FromBe(dhPrime.value);
      if p == 0 { return Err(Panic); }
      r := BiguintTo256Bytes(ModPow(gA.value, a.value, p));
    }
  }

  // ---- the server's view ----

  datatype ClientInner = ClientInner(nonce: seq<byte>, serverNonce: seq<byte>, retryId: u64, gb: nat)

  /** A server with the temporary key takes the message apart and checks its hash. */
  function ServerReads(inverse: Cipher, sha1: Sha1, key: Digest, iv: Digest, data: seq<byte>): Result<ClientInner> {
    var ctor :- Taken(GetU32(data, 0));
    var nonce :- Taken(GetRaw(data, ctor.1, 16));
    var server :- Taken(GetRaw(data, nonce.1, 16));
    var sealed :- Taken(GetBytes(data, server.1));
    if ctor.0 != SET_CLIENT_DH_PARAMS || |sealed.0| % 16 != 0 || |sealed.0| < 20 then Err(Protocol)
    else
      var plain := Decrypted(inverse(key), iv[..16], iv[16..], sealed.0);
      var inner :- ServerReadsInner(sha1, plain[..20], plain[20..]);
      if inner.nonce == nonce.0 && inner.serverNonce == server.0 then Ok(inner) else Err(Protocol)
  }

  function ServerReadsInner(sha1: Sha1, hash: Hash20, inner: seq<byte>): Result<ClientInner> {
    var ctor :- Taken(GetU32(inner, 0));
    var nonce :- Taken(GetRaw(inner, ctor.1, 16));
    var server :- Taken(GetRaw(inner, nonce.1, 16));
    var retry :- Taken(GetU64(inner, server.1));
    var gb :- Taken(GetBytes(inner, retry.1));
    if ctor.0 != CLIENT_DH_INNER_DATA || gb.1 > |inner| || sha1(inner[..gb.1]) != hash then Err(Protocol)
    else Ok(ClientInner(nonce.0, server.0, retry.0, FromBe(gb.0)))
  }

  lemma InnerRecovered(sha1: Sha1, nonce: Nonce, serverNonce: Nonce, retryId: u64, gb: nat, rest: seq<byte>)
    requires gb < LIMIT
    ensures var inner := Inner(nonce, serverNonce, retryId, gb);
            ServerReadsInner(sha1, sha1(inner), inner + rest) == Ok(ClientInner(nonce, serverNonce, retryId, gb))
  {
    hide *;
    var inner := Inner(nonce, serverNonce, retryId, gb);
    var data := inner + rest;
    GbShort(gb);
    InnerParts(nonce, serverNonce, retryId, gb, rest);
    ReadBackU32(data, 0, CLIENT_DH_INNER_DATA);
    ReadBackRaw(data, 4, nonce);
    ReadBackRaw(data, 20, serverNonce);
    ReadBackU64(data, 36, retryId);
    ReadBackBytes(MinBe(gb), 44, data, 44);
    InnerTaken(sha1, sha1(inner), data, nonce, serverNonce, retryId, MinBe(gb), |inner|);
    assert data[..|inner|] == inner;
  }

  lemma GbShort(gb: nat)
    requires gb < LIMIT
    ensures |MinBe(gb)| < 0x100_0000 && FromBe(MinBe(gb)) == gb
  {
    MinBeLength(gb, 256);
    FromBeMinBe(gb);
  }

  lemma InnerParts(nonce: Nonce, serverNonce: Nonce, retryId: u64, gb: nat, rest: seq<byte>)
    ensures var data := Inner(nonce, serverNonce, retryId, gb) + rest;
            && At(data, 0, Le(CLIENT_DH_INNER_DATA, 4)) && At(data, 4, nonce) && At(data, 20, serverNonce)
            && At(data, 36, Le(retryId, 8)) && At(data, 44, EncBytes(MinBe(gb), 44))
  {
    InnerSplit(nonce, serverNonce, retryId, gb, rest);
    hide *;
    var data := Inner(nonce, serverNonce, retryId, gb) + rest;
    var id, tail := Le(retryId, 8), EncBytes(MinBe(gb), 44);
    HeadParts(data, Le(CLIENT_DH_INNER_DATA, 4), nonce, serverNonce, id + (tail + rest));
    AtSplit(data, 36, id, tail + rest);
    AtSplit(data, 44, tail, rest);
  }

  lemma InnerSplit(nonce: Nonce, serverNonce: Nonce, retryId: u64, gb: nat, rest: seq<byte>)
    ensures Inner(nonce, serverNonce, retryId, gb) + rest ==
            Le(CLIENT_DH_INNER_DATA, 4) + nonce + serverNonce + (Le(retryId, 8) + (EncBytes(MinBe(gb), 44) + rest))
  {
    hide Le, EncBytes, MinBe;
  }

  /** The reads of the server, one after the other. */
  lemma InnerTaken(sha1: Sha1, hash: Hash20, data: seq<byte>, nonce: Nonce, serverNonce: Nonce, retryId: u64,
                   gb: seq<byte>, end: nat)
    requires GetU32(data, 0) == Got(CLIENT_DH_INNER_DATA, 4) && GetRaw(data, 4, 16) == Got(nonce, 20)
    requires GetRaw(data, 20, 16) == Got(serverNonce, 36) && GetU64(data, 36) == Got(retryId, 44)
    requires GetBytes(data, 44) == Got(gb, end) && end <= |data|
    ensures ServerReadsInner(sha1, hash, data) ==
            if sha1(data[..end]) == hash then Ok(ClientInner(nonce, serverNonce, retryId, FromBe(gb)))
            else Err(Protocol)
  {
  }

  /** The server recovers exactly the nonces, the retry id and the client's public value. */
  lemma MessageRecovered(aes: Cipher, inverse: Cipher, sha1: Sha1, key: Digest, iv: Digest, nonce: Nonce,
                         serverNonce: Nonce,
                         retryId: u64, gb: nat, padding: Nonce)
    requires Inverse(inverse, aes) && gb < LIMIT
    ensures ServerReads(inverse, sha1, key, iv,
                        SetClientDh(aes, sha1, key, iv, nonce, serverNonce, retryId, gb, padding))
            == Ok(ClientInner(nonce, serverNonce, retryId, gb))
  {
    var inner := Inner(nonce, serverNonce, retryId, gb);
    var plain := WithHash(sha1, inner, padding);
    var sealed := Encrypted(aes(key), iv[..16], iv[16..], plain);
    var data := SetClientDh(aes, sha1, key, iv, nonce, serverNonce, retryId, gb, padding);
    SealedShort(sha1, nonce, serverNonce, retryId, gb, padding);
    var tail := EncBytes(sealed, 36);
    HeadParts(data, Le(SET_CLIENT_DH_PARAMS, 4), nonce, serverNonce, tail);
    var rest := plain[20 + |inner|..];
    WithHashParts(sha1, inner, padding);
    assert Undoes(inverse(key), aes(key));
    hide Le, EncBytes, Inner, WithHash, Encrypted, Decrypted, ServerReadsInner, GetU32, GetRaw, GetBytes;
    ReadBackU32(data, 0, SET_CLIENT_DH_PARAMS);
    ReadBackRaw(data, 4, nonce);
    ReadBackRaw(data, 20, serverNonce);
    ReadBackBytes(sealed, 36, data, 36);
    RoundTrip(aes(key), inverse(key), iv[..16], iv[16..], plain);
    InnerRecovered(sha1, nonce, serverNonce, retryId, gb, rest);
  }

  lemma WithHashParts(sha1: Sha1, inner: seq<byte>, padding: Nonce)
    ensures var plain := WithHash(sha1, inner, padding);
            && |plain| >= 20 + |inner| && plain[..20] == sha1(inner)
            && plain[20..] == inner + plain[20 + |inner|..]
  {
  }

  lemma SealedShort(sha1: Sha1, nonce: Nonce, serverNonce: Nonce, retryId: u64, gb: nat, padding: Nonce)
    requires gb < LIMIT
    ensures var inner := Inner(nonce, serverNonce, retryId, gb);
            20 + |inner| <= |WithHash(sha1, inner, padding)| < 0x100_0000
  {
    MinBeLength(gb, 256);
  }

  // ---- the server's parameters, read back ----

  function ServerInner(nonce: Nonce, serverNonce: Nonce, g: u32, prime: seq<byte>, ga: seq<byte>,
                       time: u32): seq<byte> {
    var first := EncBytes(prime, 40);
    Le(SERVER_DH_INNER_DATA, 4) + nonce + serverNonce + Le(g, 4) + first + EncBytes(ga, 40 + |first|) + Le(time, 4)
  }

  function ServerDhParams(aes: Cipher, key: Digest, iv: Digest, nonce: Nonce, serverNonce: Nonce,
                          plain: seq<byte>): seq<byte>
    requires |plain| % 16 == 0
  {
    Le(SERVER_DH_PARAMS_OK, 4) + nonce + serverNonce + EncBytes(Encrypted(aes(key), iv[..16], iv[16..], plain), 36)
  }

  lemma ServerInnerParts(nonce: Nonce, serverNonce: Nonce, g: u32, prime: seq<byte>, ga: seq<byte>, time: u32,
                         rest: seq<byte>)
    ensures var data := ServerInner(nonce, serverNonce, g, prime, ga, time) + rest;
            var first := EncBytes(prime, 40);
            var second := EncBytes(ga, 40 + |first|);
            && At(data, 0, Le(SERVER_DH_INNER_DATA, 4)) && At(data, 4, nonce) && At(data, 20, serverNonce)
            && At(data, 36, Le(g, 4)) && At(data, 40, first) && At(data, 40 + |first|, second)
            && At(data, 40 + |first| + |second|, Le(time, 4))
  {
    var first := EncBytes(prime, 40);
    var second := EncBytes(ga, 40 + |first|);
    var last := Le(time, 4) + rest;
    ServerInnerSplit(nonce, serverNonce, g, prime, ga, time, rest);
    hide *;
    var data := ServerInner(nonce, serverNonce, g, prime, ga, time) + rest;
    var head := Le(SERVER_DH_INNER_DATA, 4);
    HeadParts(data, head, nonce, serverNonce, Le(g, 4) + (first + (second + last)));
    AtSplit(data, 36, Le(g, 4), first + (second + last));
    AtSplit(data, 40, first, second + last);
    AtSplit(data, 40 + |first|, second, last);
    AtSplit(data, 40 + |first| + |second|, Le(time, 4), rest);
  }

  lemma ServerInnerSplit(nonce: Nonce, serverNonce: Nonce, g: u32, prime: seq<byte>, ga: seq<byte>, time: u32,
                         rest: seq<byte>)
    ensures var first := EncBytes(prime, 40);
            var tail := first + (EncBytes(ga, 40 + |first|) + (Le(time, 4) + rest));
            ServerInner(nonce, serverNonce, g, prime, ga, time) + rest
            == Le(SERVER_DH_INNER_DATA, 4) + nonce + serverNonce + (Le(g, 4) + tail)
  {
    hide Le, EncBytes;
  }

  lemma ServerInnerRead(s: Handshake, nonce: Nonce, serverNonce: Nonce, g: u32, prime: seq<byte>, ga: seq<byte>,
                        time: u32, rest: seq<byte>)
    requires |prime| < 0x100_0000 && |ga| < 0x100_0000
    ensures ParsedInner(s, ServerInner(nonce, serverNonce, g, prime, ga, time) + rest)
            == (s.(g := Some(g), dhPrime := Some(prime), gA := Some(FromBe(ga))),
                VerifyDhParams(g, FromBe(ga), FromBe(prime)))
  {
    var data := ServerInner(nonce, serverNonce, g, prime, ga, time) + rest;
    var first := EncBytes(prime, 40);
    var second := EncBytes(ga, 40 + |first|);
    var a, b := 40 + |first|, 40 + |first| + |second|;
    hide Le, EncBytes, FromBe, GetU32, GetRaw, GetBytes, VerifyDhParams;
    ServerInnerParts(nonce, serverNonce, g, prime, ga, time, rest);
    ReadBackU32(data, 0, SERVER_DH_INNER_DATA);
    ReadBackRaw(data, 4, nonce);
    ReadBackRaw(data, 20, serverNonce);
    ReadBackU32(data, 36, g);
    ReadBackBytes(prime, 40, data, 40);
    ReadBackBytes(ga, a, data, a);
    ReadBackU32(data, b, time);
  }

  /** The client reads exactly the generator, the prime and the public value the server
      sealed for it, and accepts them when they are in range. */
  lemma ServerParamsRead(s: Handshake, aes: Cipher, inverse: Cipher, sha1: Sha1, g: u32, prime: seq<byte>,
                         ga: seq<byte>,
                         time: u32, hash: Hash20, rest: seq<byte>)
    requires Inverse(inverse, aes) && s.serverNonce.Some? && s.newNonce.Some?
    requires |prime| <= 0x1000 && |ga| <= 0x1000 && |rest| < 0x1000
    requires (20 + |ServerInner(s.nonce, s.serverNonce.value, g, prime, ga, time)| + |rest|) % 16 == 0
    ensures var key := TempKey(sha1, s.newNonce.value, s.serverNonce.value);
            var iv := TempIv(sha1, s.newNonce.value, s.serverNonce.value);
            var plain := hash + (ServerInner(s.nonce, s.serverNonce.value, g, prime, ga, time) + rest);
            ParsedDh(s, inverse, sha1, ServerDhParams(aes, key, iv, s.nonce, s.serverNonce.value, plain))
            == (s.(tempKey := Some(key), tempIv := Some(iv), g := Some(g), dhPrime := Some(prime),
                   gA := Some(FromBe(ga))),
                VerifyDhParams(g, FromBe(ga), FromBe(prime)))
  {
    var key := TempKey(sha1, s.newNonce.value, s.serverNonce.value);
    var iv := TempIv(sha1, s.newNonce.value, s.serverNonce.value);
    var inner := ServerInner(s.nonce, s.serverNonce.value, g, prime, ga, time) + rest;
    var plain := hash + inner;
    var sealed := Encrypted(aes(key), iv[..16], iv[16..], plain);
    var data := ServerDhParams(aes, key, iv, s.nonce, s.serverNonce.value, plain);
    var tail := EncBytes(sealed, 36);
    HeadParts(data, Le(SERVER_DH_PARAMS_OK, 4), s.nonce, s.serverNonce.value, tail);
    assert plain[20..] == inner;
    assert Undoes(inverse(key), aes(key));
    assert |sealed| < 0x100_0000;
    hide Le, EncBytes, FromBe, Encrypted, Decrypted, ServerInner, ParsedInner, GetU32, GetRaw, GetBytes, TempKey,
        TempIv, VerifyDhParams;
    ReadBackU32(data, 0, SERVER_DH_PARAMS_OK);
    ReadBackRaw(data, 4, s.nonce);
    ReadBackRaw(data, 20, s.serverNonce.value);
    ReadBackBytes(sealed, 36, data, 36);
    RoundTrip(aes(key), inverse(key), iv[..16], iv[16..], plain);
    ServerInnerRead(s.(tempKey := Some(key), tempIv := Some(iv)), s.nonce, s.serverNonce.value, g, prime, ga, time,
                    rest);
  }

  // ---- the retry ladder ----

  /** The state a handshake is in after step 6 succeeded. */
  predicate Ready(s: Handshake) {
    && s.serverNonce.Some? && s.newNonce.Some? && s.g.Some? && s.gA.Some? && s.tempKey.Some? && s.tempIv.Some?
    && s.dhPrime.Some? && 0 < FromBe(s.dhPrime.value) <= LIMIT
  }

  /** Accepted parameters leave the handshake ready, with the retry id untouched. */
  lemma AcceptedIsReady(s: Handshake, inverse: Cipher, sha1: Sha1, data: seq<byte>)
    requires ParsedDh(s, inverse, sha1, data).1 == Ok(())
    ensures Ready(ParsedDh(s, inverse, sha1, data).0)
    ensures ParsedDh(s, inverse, sha1, data).0.retryId == s.retryId
  {
  }

  /** The key of an attempt with secret `b`. */
  function KeyOf(s: Handshake, b: nat): (key: seq<byte>)
    requires Ready(s)
    ensures DhComplete(s.gA.value, b, FromBe(s.dhPrime.value)) == Ok(key)
  {
    DhComplete(s.gA.value, b, FromBe(s.dhPrime.value)).value
  }

  /** 0 on the first attempt, then the hash of the previous candidate key. */
  function RetryIdOf(s: Handshake, sha1: Sha1, secret: nat -> nat, attempt: nat): u64
    requires Ready(s)
  {
    if attempt == 0 then 0 else AuxHash(sha1, KeyOf(s, secret(attempt - 1)))
  }

  function PublicOf(s: Handshake, b: nat): nat
    requires Ready(s)
  {
    ModPow(s.g.value, b, FromBe(s.dhPrime.value))
  }

  function MessageOf(s: Handshake, aes: Cipher, sha1: Sha1, secret: nat -> nat, padding: nat -> Nonce,
                     attempt: nat): seq<byte>
    requires Ready(s)
  {
    SetClientDh(aes, sha1, s.tempKey.value, s.tempIv.value, s.nonce, s.serverNonce.value,
                RetryIdOf(s, sha1, secret, attempt), PublicOf(s, secret(attempt)), padding(attempt))
  }

  /** The fields after `attempt + 1` messages were built. */
  function StateAfter(s: Handshake, sha1: Sha1, secret: nat -> nat, attempt: nat): Handshake
    requires Ready(s)
  {
    s.(a := Some(secret(attempt)), auxHash := Some(AuxHash(sha1, KeyOf(s, secret(attempt)))),
       retryId := RetryIdOf(s, sha1, secret, attempt))
  }

  /** The fields when attempt number `attempt` starts. */
  function StateBefore(s: Handshake, sha1: Sha1, secret: nat -> nat, attempt: nat): Handshake
    requires Ready(s)
  {
    if attempt == 0 then s
    else StateAfter(s, sha1, secret, attempt - 1).(retryId := RetryIdOf(s, sha1, secret, attempt))
  }

  lemma BuildStep(s: Handshake, aes: Cipher, sha1: Sha1, secret: nat -> nat, padding: nat -> Nonce, attempt: nat)
    requires Ready(s) && s.retryId == 0
    ensures BuiltSet(StateBefore(s, sha1, secret, attempt), aes, sha1, secret(attempt), padding(attempt))
            == (StateAfter(s, sha1, secret, attempt), Ok(MessageOf(s, aes, sha1, secret, padding, attempt)))
  {
  }

  lemma RetryStep(s: Handshake, sha1: Sha1, secret: nat -> nat, attempts: nat)
    requires Ready(s) && attempts > 0
    ensures var after := StateAfter(s, sha1, secret, attempts - 1);
            && after.auxHash.Some? && after.dhPrime == s.dhPrime && after.gA == s.gA
                && after.a == Some(secret(attempts - 1))
            && StateBefore(s, sha1, secret, attempts) == after.(retryId := after.auxHash.value)
  {
  }

  /** What the ladder makes of the last answer. */
  function Outcome(s: Handshake, secret: nat -> nat, attempts: nat,
                   answer: Option<seq<byte>>): Option<Result<seq<byte>>>
    requires Ready(s) && attempts > 0
  {
    match answer
    case None => Some(Err(Network))
    case Some(data) =>
      match ParseDhGen(data)
      case Err(e) => Some(Err(e))
      case Ok(DhOk) => Some(Ok(KeyOf(s, secret(attempts - 1))))
      case Ok(DhFail) => Some(Err(Protocol))
      case Ok(DhRetry) => if attempts == MAX_DH_ATTEMPTS then Some(Err(Protocol)) else None
  }

  ghost predicate Messages(s: Handshake, aes: Cipher, sha1: Sha1, secret: nat -> nat, padding: nat -> Nonce,
                          sent: seq<seq<byte>>)
    requires Ready(s)
  {
    forall i :: 0 <= i < |sent| ==> sent[i] == MessageOf(s, aes, sha1, secret, padding, i)
  }

  /** Every message but the last was answered by a request to retry. */
  ghost predicate Retried(s: Handshake, secret: nat -> nat, server: seq<seq<byte>> -> Option<seq<byte>>,
                          sent: seq<seq<byte>>)
    requires Ready(s)
  {
    forall i :: 0 < i < |sent| ==> Outcome(s, secret, i, server(sent[..i])) == None
  }

  lemma OneMore(s: Handshake, aes: Cipher, sha1: Sha1, secret: nat -> nat, padding: nat -> Nonce,
                server: seq<seq<byte>> -> Option<seq<byte>>, sent: seq<seq<byte>>, message: seq<byte>)
    requires Ready(s) && Messages(s, aes, sha1, secret, padding, sent) && Retried(s, secret, server, sent)
    requires sent != [] ==> Outcome(s, secret, |sent|, server(sent)) == None
    requires message == MessageOf(s, aes, sha1, secret, padding, |sent|)
    ensures Messages(s, aes, sha1, secret, padding, sent + [message])
    ensures Retried(s, secret, server, sent + [message])
  {
    hide Outcome, MessageOf, Ready;
    var more := sent + [message];
    forall i | 0 < i < |more| ensures Outcome(s, secret, i, server(more[..i])) == None {
      assert more[..i] == if i == |sent| then sent else sent[..i];
    }
  }

  lemma NothingSent(s: Handshake, aes: Cipher, sha1: Sha1, secret: nat -> nat, padding: nat -> Nonce,
                    server: seq<seq<byte>> -> Option<seq<byte>>)
    requires Ready(s)
    ensures Messages(s, aes, sha1, secret, padding, []) && Retried(s, secret, server, [])
    ensures StateBefore(s, sha1, secret, 0) == s
  {
  }

  lemma Outcomes(s: Handshake, secret: nat -> nat, attempts: nat, answer: Option<seq<byte>>)
    requires Ready(s) && attempts > 0
    ensures answer.None? ==> Outcome(s, secret, attempts, answer) == Some(Err(Network))
    ensures answer.Some? ==>
              var r, verdict := Outcome(s, secret, attempts, answer), ParseDhGen(answer.value);
              if verdict.Err? then r == Some(Err(verdict.error))
              else if verdict.value == DhOk then
                FromBe(s.dhPrime.value) > 0 && s.gA.Some? && s.dhPrime.Some?
                && r == Some(DhComplete(s.gA.value, secret(attempts - 1), FromBe(s.dhPrime.value)))
              else if verdict.value == DhFail then r == Some(Err(Protocol))
              else r == if attempts == MAX_DH_ATTEMPTS then Some(Err(Protocol)) else None
  {
  }

  /** The answer to the last of `n` messages says `dh_gen_ok`, and the key is that of its
      secret; it says `dh_gen_retry`, and it is the fourth; or there is no key. */
  predicate EndsWith(s: Handshake, secret: nat -> nat, n: nat, answer: Option<seq<byte>>, r: Result<seq<byte>>)
    requires Ready(s) && n > 0
  {
    match answer
    case None => r == Err(Network)
    case Some(data) =>
      if Says(data, DH_GEN_OK) then r == Ok(KeyOf(s, secret(n - 1)))
      else if Says(data, DH_GEN_RETRY) then n == 4 && r == Err(Protocol)
      else if Says(data, DH_GEN_FAIL) then r == Err(Protocol)
      else r == Err(if |data| >= 36 && data[..4] !in KNOWN_ANSWERS then UnexpectedResponse else Serialization)
  }

  /** Every answer before the last asked for another attempt. */
  ghost predicate AskedAgain(server: seq<seq<byte>> -> Option<seq<byte>>, sent: seq<seq<byte>>) {
    forall i :: 0 < i < |sent| ==> server(sent[..i]).Some? && Says(server(sent[..i]).value, DH_GEN_RETRY)
  }

  lemma OutcomeMeans(s: Handshake, secret: nat -> nat, n: nat, answer: Option<seq<byte>>)
    requires Ready(s) && n > 0
    ensures var r := Outcome(s, secret, n, answer);
            if r.Some? then EndsWith(s, secret, n, answer, r.value)
            else n != MAX_DH_ATTEMPTS && answer.Some? && Says(answer.value, DH_GEN_RETRY)
  {
    hide ParseDhGen, KeyOf, DhComplete, FromBe, Le, KNOWN_ANSWERS;
    if answer.Some? {
      VerdictMeans(answer.value);
    }
  }

  lemma LadderMeans(s: Handshake, secret: nat -> nat, server: seq<seq<byte>> -> Option<seq<byte>>,
                    sent: seq<seq<byte>>, r: Result<seq<byte>>)
    requires Ready(s) && sent != [] && Retried(s, secret, server, sent)
    requires Outcome(s, secret, |sent|, server(sent)) == Some(r)
    ensures EndsWith(s, secret, |sent|, server(sent), r) && AskedAgain(server, sent)
  {
    hide Outcome, Says, EndsWith, Ready;
    OutcomeMeans(s, secret, |sent|, server(sent));
    forall i | 0 < i < |sent| ensures server(sent[..i]).Some? && Says(server(sent[..i]).value, DH_GEN_RETRY) {
      OutcomeMeans(s, secret, i, server(sent[..i]));
    }
  }

  /** Step 9: the answer decides, or the hash of this candidate becomes the next retry id. */
  method TakeAnswer(auth: AuthKeyCreation, answer: Option<seq<byte>>, ghost sha1: Sha1, ghost s: Handshake,
                    ghost secret: nat -> nat, ghost attempts: nat) returns (r: Option<Result<seq<byte>>>)
    requires Ready(s) && s.retryId == 0 && attempts > 0 && auth.State() == StateAfter(s, sha1, secret, attempts - 1)
    modifies auth
    ensures r.Some? ==> r == Outcome(s, secret, attempts, answer) && auth.State() == old(auth.State())
    ensures r.None? ==> auth.State() == StateBefore(s, sha1, secret, attempts)
                        && Outcome(s, secret, attempts, answer)
                           == if attempts == MAX_DH_ATTEMPTS then Some(Err(Protocol)) else None
  {
    hide Outcome, StateAfter, StateBefore, ParseDhGen, DhComplete, KeyOf, FromBe, Ready;
    Outcomes(s, secret, attempts, answer);
    RetryStep(s, sha1, secret, attempts);
    if answer.None? { return Some(Err(Network)); }
    var verdict := ParseDhGen(answer.value);
    if verdict.Err? { return Some(Err(verdict.error)); }
    match verdict.value
    case DhOk =>
      var key := auth.ComputeAuthKey();
      return Some(key);
    case DhRetry =>
      auth.retryId := auth.auxHash.value;
      return None;
    case DhFail =>
      return Some(Err(Protocol));
  }

  /** Steps 7 to 9 of `create_auth_key`: at most four attempts against any server; the
      result is the key of the last attempt when the server accepted it. */
  method DhLadder(auth: AuthKeyCreation, aes: Cipher, sha1: Sha1, server: seq<seq<byte>> -> Option<seq<byte>>,
                  secret: nat -> nat, padding: nat -> Nonce) returns (r: Result<seq<byte>>, ghost sent: seq<seq<byte>>)
    requires Ready(auth.State()) && auth.retryId == 0
    modifies auth
    ensures 1 <= |sent| <= 4
    ensures Messages(old(auth.State()), aes, sha1, secret, padding, sent)
    ensures Retried(old(auth.State()), secret, server, sent)
    ensures Outcome(old(auth.State()), secret, |sent|, server(sent)) == Some(r)
    ensures EndsWith(old(auth.State()), secret, |sent|, server(sent), r) && AskedAgain(server, sent)
    ensures auth.State() == StateAfter(old(auth.State()), sha1, secret, |sent| - 1)
            || (r.Err? && auth.State() == StateBefore(old(auth.State()), sha1, secret, |sent|))
  {
    hide Outcome, EndsWith, AskedAgain, StateAfter, StateBefore, MessageOf, Messages, Retried, Ready;
    ghost var s := auth.State();
    var log: seq<seq<byte>> := [];
    sent := [];
    NothingSent(s, aes, sha1, secret, padding, server);
    for attempt := 0 to MAX_DH_ATTEMPTS
      invariant |sent| == attempt && log == sent
      invariant auth.State() == StateBefore(s, sha1, secret, attempt)
      invariant Messages(s, aes, sha1, secret, padding, sent) && Retried(s, secret, server, sent)
      invariant attempt > 0 ==>
        Outcome(s, secret, attempt, server(sent)) == if attempt == MAX_DH_ATTEMPTS then Some(Err(Protocol)) else None
    {
      hide *;
      BuildStep(s, aes, sha1, secret, padding, attempt);
      var setDh := auth.BuildSetClientDhParams(aes, sha1, secret(attempt), padding(attempt));
      OneMore(s, aes, sha1, secret, padding, server, sent, setDh.value);
      log, sent := log + [setDh.value], sent + [setDh.value];
      var answer := server(log);
      var done := TakeAnswer(auth, answer, sha1, s, secret, attempt + 1);
      assert |sent| == attempt + 1;
      if done.Some? {
        assert auth.State() == StateAfter(s, sha1, secret, |sent| - 1);
        LadderMeans(s, secret, server, sent, done.value);
        return done.value, sent;
      }
    }
    assert auth.State() == StateBefore(s, sha1, secret, |sent|);
    r := Err(Protocol);
    LadderMeans(s, secret, server, sent, r);
  }

  /** Agreement: when the ladder succeeds against a server that chose `a` and sent
      `g^a mod p`, the server recovers from the last message the retry id and a public value
      from which it computes the very key the client holds, whose hash the client kept. */
  lemma LadderAgreement(s: Handshake, aes: Cipher, inverse: Cipher, sha1: Sha1, secret: nat -> nat,
                        padding: nat -> Nonce, attempt: nat, a: nat)
    requires Ready(s) && Inverse(inverse, aes)
    requires s.gA == Some(ModPow(s.g.value, a, FromBe(s.dhPrime.value)))
    ensures var p := FromBe(s.dhPrime.value);
            var read := ServerReads(inverse, sha1, s.tempKey.value, s.tempIv.value,
                                    MessageOf(s, aes, sha1, secret, padding, attempt));
            && read.Ok? && read.value.nonce == s.nonce && read.value.serverNonce == s.serverNonce.value
            && read.value.retryId == RetryIdOf(s, sha1, secret, attempt)
            && read.value.gb == ModPow(s.g.value, secret(attempt), p)
            && DhComplete(read.value.gb, a, p) == Ok(KeyOf(s, secret(attempt)))
            && |KeyOf(s, secret(attempt))| == 256
            && StateAfter(s, sha1, secret, attempt).auxHash == Some(AuxHash(sha1, KeyOf(s, secret(attempt))))
  {
    var p := FromBe(s.dhPrime.value);
    var b := secret(attempt);
    MessageRecovered(aes, inverse, sha1, s.tempKey.value, s.tempIv.value, s.nonce, s.serverNonce.value,
                     RetryIdOf(s, sha1, secret, attempt), PublicOf(s, b), padding(attempt));
    DhAgreement(s.g.value, a, b, p);
  }
}
