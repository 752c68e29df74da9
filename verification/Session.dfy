/** `MtProtoSession` of `src/mtproto.rs`: message ids, sequence numbers and the encrypted
    envelope. AES, SHA-256, gzip, the clock and the random bytes are parameters. */
module Session {
  import opened Wrappers
  import opened Bytes
  import opened Serialize
  import opened Ige
  import opened KeyExchange

  // ---- message ids and sequence numbers ----

  /** `crypto::next_msg_id`: the shift drops the high half of the time, bit 2 is set. */
  function ClockId(now: i64, offset: i64): (id: u64)
    ensures id % 4 == 0
    ensures id <= (TWO_32 - 1) * TWO_32 + 4
    ensures id / TWO_32 == (now + offset) % TWO_32 && id % TWO_32 == 4
  {
    var t := (now + offset) % TWO_32;
    assert t * 0x1_0000_0000 == 4 * (t * 0x4000_0000);
    t * 0x1_0000_0000 + 4
  }

  /** The next id, given what the clock says: never one that was passed, but the addition
      wraps. */
  function NextId(last: u64, clock: u64): u64 {
    if clock <= last then (last + 4) % TWO_64 else clock
  }

  /** Strictly increasing. */
  ghost predicate Increasing(ids: seq<u64>) {
    forall i, j :: 0 <= i < j < |ids| ==> ids[i] < ids[j]
  }

  /** The number of content-related messages among `flags`. */
  function Content(flags: seq<bool>): nat {
    if flags == [] then 0
    else Content(flags[..|flags| - 1]) + if flags[|flags| - 1] then 1 else 0
  }

  /** Up to this many ids from one session the counter cannot leave 64 bits. */
  const ID_BUDGET: nat := 0x3FFF_FFFE

  class MtProtoSession {
    const authKey: seq<byte>
    const authKeyId: u64
    const sessionId: u64
    const randomPadding: bool
    const compressThreshold: nat
    var serverSalt: u64
    var seqNo: i32
    var serverTimeOffset: i64
    var lastMsgId: u64
    /** Every id handed out, and for each sequence number whether it was content-related. */
    ghost var ids: seq<u64>
    ghost var flags: seq<bool>

    ghost predicate Valid()
      reads this
    {
      && |authKey| == 256
      && seqNo == AsI32(Content(flags))
      && (forall i :: 0 <= i < |ids| ==> ids[i] % 4 == 0)
      && lastMsgId == (if ids == [] then 0 else ids[|ids| - 1])
      && (|ids| <= ID_BUDGET ==>
            Increasing(ids) && lastMsgId <= (TWO_32 - 1) * TWO_32 + 4 + 4 * |ids|)
    }

    constructor (authKey: seq<byte>, authKeyId: u64, sessionId: u64, salt: u64, randomPadding: bool,
                 compressThreshold: nat)
      requires |authKey| == 256
      ensures Valid() && ids == [] && flags == []
      ensures this.authKey == authKey && this.authKeyId == authKeyId && this.sessionId == sessionId
      ensures this.randomPadding == randomPadding && this.compressThreshold == compressThreshold
      ensures serverSalt == salt && seqNo == 0 && lastMsgId == 0 && serverTimeOffset == 0
    {
      this.authKey, this.authKeyId, this.sessionId := authKey, authKeyId, sessionId;
      this.randomPadding, this.compressThreshold := randomPadding, compressThreshold;
      serverSalt, seqNo, serverTimeOffset, lastMsgId := salt, 0, 0, 0;
      ids, flags := [], [];
    }

    /** `next_msg_id` with the wall clock given; the addition wraps. */
    method NextMsgId(now: i64) returns (id: u64)
      requires Valid()
      modifies this
      ensures Valid() && ids == old(ids) + [id] && lastMsgId == id
      ensures id == NextId(old(lastMsgId), ClockId(now, serverTimeOffset))
      ensures id > old(lastMsgId) || old(lastMsgId) >= TWO_64 - 4
      ensures (id / TWO_32 == (now + serverTimeOffset) % TWO_32 && id % TWO_32 == 4)
              || id == (old(lastMsgId) + 4) % TWO_64
      ensures old(lastMsgId) / TWO_32 < (now + serverTimeOffset) % TWO_32 ==>
                id / TWO_32 == (now + serverTimeOffset) % TWO_32
      ensures flags == old(flags) && seqNo == old(seqNo)
      ensures serverSalt == old(serverSalt) && serverTimeOffset == old(serverTimeOffset)
    {
      id := ClockId(now, serverTimeOffset);
      if id <= lastMsgId {
        id := (lastMsgId + 4) % TWO_64;
      }
      assert id % 4 == 0 by {
        if ids != [] {
          assert lastMsgId == ids[|ids| - 1];
        }
      }
      lastMsgId := id;
      ids := ids + [id];
    }

    /** `next_seq_no`; both the doubling and the counter wrap. */
    method NextSeqNo(contentRelated: bool) returns (number: i32)
      requires Valid()
      modifies this
      ensures Valid() && flags == old(flags) + [contentRelated]
      ensures number == AsI32(2 * Content(old(flags)) + if contentRelated then 1 else 0)
      ensures ids == old(ids) && lastMsgId == old(lastMsgId)
      ensures serverSalt == old(serverSalt) && serverTimeOffset == old(serverTimeOffset)
    {
      var bit := if contentRelated then 1 else 0;
      number := AsI32(seqNo * 2 + bit);
      WrappedSequence(Content(flags), bit);
      if contentRelated {
        seqNo := AsI32(seqNo + 1);
      }
      ghost var was := flags;
      flags := flags + [contentRelated];
      assert flags[..|flags| - 1] == was;
    }

    /** `encrypt_message`. */
    method EncryptMessage(aes: Cipher, sha: Sha256, pack: Gzip, payload: seq<byte>, msgId: u64, seqNo: i32,
                          extra: byte, noise: nat -> byte) returns (r: seq<byte>)
      requires Valid()
      ensures var packed := Compressed(pack, compressThreshold, payload);
              var pad := PadCount(|packed|, randomPadding, extra);
              r == Sealed(aes, sha, authKey, authKeyId,
                          Plaintext(serverSalt, sessionId, msgId, seqNo, packed, Noise(noise, pad)), 0)
    {
      var packed := CompressPayload(pack, compressThreshold, payload);
      var plaintext := BuildPlaintext(serverSalt, sessionId, msgId, seqNo, packed, randomPadding, extra, noise);
      var msgKey := MsgKey(sha, authKey, plaintext, 0);
      var (key, iv) := AesKeyAndIv(sha, authKey, msgKey, 0);
      var encrypted := new byte[|plaintext|](i requires 0 <= i < |plaintext| => plaintext[i]);
      assert encrypted[..] == plaintext;
      var done := AesIgeEncrypt(encrypted, aes(key), iv);
      r := Be(authKeyId, 8) + msgKey + encrypted[..];
    }

    /** `decrypt_message_with_x`: adopts the sender's salt, but only from a good message. */
    method DecryptMessageWithX(inverse: Cipher, sha: Sha256, data: seq<byte>,
                            x: nat) returns (r: Result<(u64, seq<byte>)>)
      requires Valid() && x <= 8
      modifies this`serverSalt
      ensures Valid()
      ensures match Opened(inverse, sha, authKey, authKeyId, data, x)
              case Ok(m) => r == Ok((m.msgId, m.payload)) && serverSalt == m.salt
              case Err(e) => r == Err(e) && serverSalt == old(serverSalt)
    {
      hide MsgKey, AesKeyAndIv, ParsePlain, FromBe, Decrypted, Encrypted, Content, AsI32, Increasing;
      if |data| < 24 { return Err(Protocol); }
      if FromBe(data[0..8]) != authKeyId { return Err(Protocol); }
      var msgKey := data[8..24];
      var (key, iv) := AesKeyAndIv(sha, authKey, msgKey, x);
      var tail := data[24..];
      var decrypted := new byte[|tail|](i requires 0 <= i < |tail| => tail[i]);
      assert decrypted[..] == tail;
      var done := AesIgeDecrypt(decrypted, inverse(key), iv);
      if done.Err? { return Err(done.error); }
      var plain := decrypted[..];
      if msgKey != MsgKey(sha, authKey, plain, x) { return Err(Protocol); }
      match ParsePlain(plain)
      case Err(e) => return Err(e);
      case Ok(m) =>
        serverSalt := m.salt;
        return Ok((m.msgId, m.payload));
    }

    /** `decrypt_message`: what servers send is keyed with an offset of 8. */
    method DecryptMessage(inverse: Cipher, sha: Sha256, data: seq<byte>) returns (r: Result<(u64, seq<byte>)>)
      requires Valid()
      modifies this`serverSalt
      ensures Valid()
      ensures match Opened(inverse, sha, authKey, authKeyId, data, 8)
              case Ok(m) => r == Ok((m.msgId, m.payload)) && serverSalt == m.salt
              case Err(e) => r == Err(e) && serverSalt == old(serverSalt)
    {
      r := DecryptMessageWithX(inverse, sha, data, 8);
    }
  }

  lemma WrappedSequence(c: nat, bit: nat)
    ensures AsI32(AsI32(c) * 2 + bit) == AsI32(2 * c + bit)
    ensures AsI32(AsI32(c) + 1) == AsI32(c + 1)
  {
    var k := (AsI32(c) - c) / TWO_32;
    assert AsI32(c) == c + k * TWO_32;
    SameI32(2 * c + bit, 2 * k);
    SameI32(c + 1, k);
  }

  lemma SameI32(v: int, k: int)
    ensures AsI32(v + k * TWO_32) == AsI32(v)
  {
    ModShift(v, k, TWO_32);
  }

  /** While fewer than 2^30 content messages were sent, the sequence number is twice their
      count plus the content bit; it is not from then on. */
  lemma SequenceLaw(flags: seq<bool>, content: bool)
    ensures var bit := if content then 1 else 0;
            AsI32(2 * Content(flags) + bit) == 2 * Content(flags) + bit <==> Content(flags) < 0x4000_0000
  {
  }

  // ---- the envelope ----

  type Cipher = Digest -> BlockFunction

  ghost predicate Inverse(inverse: Cipher, aes: Cipher) {
    forall k: Digest :: Undoes(inverse(k), aes(k))
  }

  type Gzip = seq<byte> -> Option<seq<byte>>

  const GZIP_PACKED: u32 := 0x3072cfa1

  function MsgKey(sha: Sha256, authKey: seq<byte>, padded: seq<byte>, x: nat): (key: Block)
    requires |authKey| == 256 && x <= 8
  {
    sha(authKey[88 + x..120 + x] + padded)[8..24]
  }

  function AesKeyAndIv(sha: Sha256, authKey: seq<byte>, msgKey: Block, x: nat): (r: (Digest, Digest))
    requires |authKey| == 256 && x <= 8
  {
    var a := sha(msgKey + authKey[x..x + 36]);
    var b := sha(authKey[40 + x..76 + x] + msgKey);
    (a[0..8] + b[8..24] + a[24..32], b[0..8] + a[8..24] + b[24..32])
  }

  /** The stretches of the key that enter the hashes: 0 for what the client sends, 8 for
      what it receives. */
  lemma KeyOffsets(sha: Sha256, k: seq<byte>, m: Block, padded: seq<byte>)
    requires |k| == 256
    ensures MsgKey(sha, k, padded, 0) == sha(k[88..120] + padded)[8..24]
    ensures MsgKey(sha, k, padded, 8) == sha(k[96..128] + padded)[8..24]
    ensures Mixed(AesKeyAndIv(sha, k, m, 0), sha(m + k[0..36]), sha(k[40..76] + m))
    ensures Mixed(AesKeyAndIv(sha, k, m, 8), sha(m + k[8..44]), sha(k[48..84] + m))
  {
  }

  /** The key takes its outer bytes from the first hash and its inner ones from the second,
      the initialisation vector the other way round. */
  predicate Mixed(pair: (Digest, Digest), first: Digest, second: Digest) {
    forall i :: 0 <= i < 32 ==>
      && pair.0[i] == (if 8 <= i < 24 then second[i] else first[i])
      && pair.1[i] == (if 8 <= i < 24 then first[i] else second[i])
  }

  function Header(salt: u64, session: u64, msgId: u64, seqNo: i32, len: nat): (h: seq<byte>)
    ensures |h| == 32
  {
    Le(salt, 8) + Le(session, 8) + Le(msgId, 8) + Le(U32Of(seqNo), 4) + Le(U32Of(AsI32(len)), 4)
  }

  function Plaintext(salt: u64, session: u64, msgId: u64, seqNo: i32, payload: seq<byte>,
                     padding: seq<byte>): (r: seq<byte>)
    ensures |r| == 32 + |payload| + |padding|
  {
    Header(salt, session, msgId, seqNo, |payload|) + payload + padding
  }

  /** The first `n` bytes of a random supply. */
  function Noise(noise: nat -> byte, n: nat): (r: seq<byte>)
    ensures |r| == n
  {
    seq(n, i requires 0 <= i < n => noise(i))
  }

  /** 12 to 27 bytes up to the block size, and up to 15 random blocks on top. */
  function PadCount(len: nat, randomPadding: bool, extra: byte): (n: nat)
    ensures 12 <= n <= 267 && (32 + len + n) % 16 == 0
    ensures !randomPadding ==> n <= 27
  {
    var least := (16 - (32 + len) % 16) % 16;
    (if least < 12 then least + 16 else least) + (if randomPadding then extra % 16 * 16 else 0)
  }

  /** Random padding adds up to fifteen whole blocks to the least padding. */
  lemma PadExtra(len: nat, extra: byte)
    ensures PadCount(len, true, extra) == PadCount(len, false, 0) + 16 * (extra % 16)
    ensures PadCount(len, false, extra) == PadCount(len, false, 0)
  {
  }

  method BuildPlaintext(salt: u64, session: u64, msgId: u64, seqNo: i32, payload: seq<byte>,
                        randomPadding: bool, extra: byte, noise: nat -> byte) returns (r: seq<byte>)
    ensures r == Plaintext(salt, session, msgId, seqNo, payload,
                           Noise(noise, PadCount(|payload|, randomPadding, extra)))
    ensures |r| % 16 == 0 && 32 + |payload| + 12 <= |r| <= 32 + |payload| + 267
  {
    hide Le, U32Of, AsI32, Noise;
    var w := new TLWriter();
    w.WriteU64(salt);
    w.WriteU64(session);
    w.WriteU64(msgId);
    w.WriteI32(seqNo);
    w.WriteI32(AsI32(|payload|));
    assert w.buf == Header(salt, session, msgId, seqNo, |payload|);
    w.WriteRawBytes(payload);
    var base := |w.buf|;
    var padLen := (16 - base % 16) % 16;
    if padLen < 12 {
      padLen := padLen + 16;
    }
    if randomPadding {
      padLen := padLen + extra % 16 * 16;
    }
    r := w.buf + Noise(noise, padLen);
  }

  /** What `compress_payload` makes of a payload. */
  function Compressed(pack: Gzip, threshold: nat, payload: seq<byte>): seq<byte> {
    if threshold == 0 || |payload| <= threshold then payload
    else match pack(payload)
      case None => payload
      case Some(packed) =>
        if |packed| + 8 >= |payload| then payload else Le(GZIP_PACKED, 4) + EncBytes(packed, 4)
  }

  method CompressPayload(pack: Gzip, threshold: nat, payload: seq<byte>) returns (r: seq<byte>)
    ensures r == Compressed(pack, threshold, payload)
    ensures |r| <= |payload| + 2
    ensures |payload| % 4 == 0 ==> |r| % 4 == 0 && |r| <= |payload|
  {
    if threshold == 0 || |payload| <= threshold { return payload; }
    var packed := pack(payload);
    if packed.None? { return payload; }
    if |packed.value| + 8 >= |payload| { return payload; }
    var w := new TLWriter();
    w.WriteU32(GZIP_PACKED);
    w.WriteBytes(packed.value);
    assert w.buf == Le(GZIP_PACKED, 4) + EncBytes(packed.value, 4);
    r := w.buf;
  }

  /** Compression makes a payload longer exactly when the packed form needs the long length
      prefix and is nine or ten bytes shorter, which prefix and padding use up. */
  lemma CompressedGrows(pack: Gzip, threshold: nat, payload: seq<byte>)
    ensures |Compressed(pack, threshold, payload)| > |payload| <==>
            && 0 < threshold < |payload| && pack(payload).Some?
            && var n := |pack(payload).value|;
               n > 252 && ((n % 4 == 1 && n + 9 <= |payload| <= n + 10) || (n % 4 == 2 && |payload| == n + 9))
    ensures |Compressed(pack, threshold, payload)| > |payload| ==> |payload| % 4 == 2 || |payload| % 4 == 3
  {
    hide EncBytes, Le;
    if threshold > 0 && pack(payload).Some? {
      EncBytesLength(pack(payload).value, 4);
      assert |Le(GZIP_PACKED, 4)| == 4;
    }
  }

  lemma EncBytesLength(s: seq<byte>, off: nat)
    requires off % 4 == 0
    ensures |EncBytes(s, off)| == if |s| <= 252 then (1 + |s| + 3) / 4 * 4 else (4 + |s| + 3) / 4 * 4
  {
    hide Le, PadLen;
    var n := if |s| <= 252 then 1 + |s| else 4 + |s|;
    assert |LenPrefix(|s|) + s| == n;
    PaddedUp(n, off);
  }

  lemma PaddedUp(n: nat, off: nat)
    requires off % 4 == 0
    ensures n + PadLen(off + n) == (n + 3) / 4 * 4
  {
  }

  /** 266 bytes that pack into 257 become 268. */
  lemma TwoBytesLonger(pack: Gzip)
    requires pack(Zeros(266)) == Some(Zeros(257))
    ensures |Compressed(pack, 1, Zeros(266))| == 268
  {
    EncBytesLength(Zeros(257), 4);
  }

  /** `unwrap_gzip`. */
  function UnwrapGzip(unpack: Gzip, data: seq<byte>): Result<seq<byte>> {
    if |data| < 4 then Ok(data)
    else if FromLe(data[0..4]) != GZIP_PACKED then Ok(data)
    else match GetBytes(data, 4)
      case Fail(e, _) => Err(e)
      case Got(packed, _) =>
        match unpack(packed)
        case None => Err(Serialization)
        case Some(out) => Ok(out)
  }

  predicate LooksPacked(data: seq<byte>) {
    |data| >= 4 && FromLe(data[0..4]) == GZIP_PACKED
  }

  /** Unpacking undoes packing for every payload shorter than 2^24 bytes that does not
      itself begin with the gzip constructor. */
  lemma GzipBack(pack: Gzip, unpack: Gzip, threshold: nat, payload: seq<byte>)
    requires forall d: seq<byte> :: pack(d).Some? ==> unpack(pack(d).value) == Some(d)
    requires |payload| < 0x100_0000
    ensures !LooksPacked(payload) ==> UnwrapGzip(unpack, Compressed(pack, threshold, payload)) == Ok(payload)
    ensures LooksPacked(payload) && Compressed(pack, threshold, payload) == payload ==>
              UnwrapGzip(unpack, payload) == match GetBytes(payload, 4)
                                             case Fail(e, _) => Err(e)
                                             case Got(packed, _) =>
                                               match unpack(packed)
                                               case None => Err(Serialization)
                                               case Some(out) => Ok(out)
  {
    var r := Compressed(pack, threshold, payload);
    if r != payload {
      var packed := pack(payload).value;
      var data := Le(GZIP_PACKED, 4) + EncBytes(packed, 4);
      assert r == data;
      assert data[0..4] == Le(GZIP_PACKED, 4) && data[4..4 + |EncBytes(packed, 4)|] == EncBytes(packed, 4);
      Pow256Values();
      FromLeLe(GZIP_PACKED, 4);
      ReadBackBytes(packed, 4, data, 4);
    }
  }

  function Sealed(aes: Cipher, sha: Sha256, authKey: seq<byte>, authKeyId: u64, plaintext: seq<byte>, x: nat): seq<byte>
    requires |authKey| == 256 && x <= 8 && |plaintext| % 16 == 0
  {
    var msgKey := MsgKey(sha, authKey, plaintext, x);
    var (key, iv) := AesKeyAndIv(sha, authKey, msgKey, x);
    Be(authKeyId, 8) + msgKey + Encrypted(aes(key), iv[..16], iv[16..], plaintext)
  }

  datatype Message = Message(salt: u64, msgId: u64, payload: seq<byte>)

  /** The checks of the receiver, in order. */
  function Opened(inverse: Cipher, sha: Sha256, authKey: seq<byte>, authKeyId: u64, data: seq<byte>,
                  x: nat): Result<Message>
    requires |authKey| == 256 && x <= 8
  {
    if |data| < 24 then Err(Protocol)
    else if FromBe(data[0..8]) != authKeyId then Err(Protocol)
    else
      var msgKey := data[8..24];
      var (key, iv) := AesKeyAndIv(sha, authKey, msgKey, x);
      var tail := data[24..];
      if |tail| % 16 != 0 then Err(Crypto)
      else
        var plain := Decrypted(inverse(key), iv[..16], iv[16..], tail);
        if msgKey != MsgKey(sha, authKey, plain, x) then Err(Protocol)
        else ParsePlain(plain)
  }

  /** The inner header. A length of -32 to -1 overflows the bound check. */
  function ParsePlain(plain: seq<byte>): (r: Result<Message>)
    ensures r.Ok? ==> |plain| >= 32
  {
    if |plain| < 32 then Err(Serialization)
    else
      Pow256Values();
      var len := I32Of(FromLe(plain[28..32]));
      if -32 <= len < 0 then Err(Panic)
      else if len < 0 || 32 + len > |plain| then Err(Protocol)
      else Ok(Message(FromLe(plain[0..8]), FromLe(plain[16..24]), plain[32..32 + len]))
  }

  /** A message under the right key whose inner length is -32 to -1. */
  predicate NegativeLength(inverse: Cipher, sha: Sha256, authKey: seq<byte>, authKeyId: u64, data: seq<byte>, x: nat)
    requires |authKey| == 256 && x <= 8
  {
    && |data| >= 56 && FromBe(data[0..8]) == authKeyId && |data| % 16 == 8 &&
    var (key, iv) := AesKeyAndIv(sha, authKey, data[8..24], x);
    var plain := Decrypted(inverse(key), iv[..16], iv[16..], data[24..]);
    && data[8..24] == MsgKey(sha, authKey, plain, x)
    && (Pow256Values(); -32 <= I32Of(FromLe(plain[28..32])) < 0)
  }

  /** The receiver panics on exactly those. */
  lemma OpenPanics(inverse: Cipher, sha: Sha256, authKey: seq<byte>, authKeyId: u64, data: seq<byte>, x: nat)
    requires |authKey| == 256 && x <= 8
    ensures Opened(inverse, sha, authKey, authKeyId, data, x) == Err(Panic)
            <==> NegativeLength(inverse, sha, authKey, authKeyId, data, x)
  {
    hide AesKeyAndIv, MsgKey, FromBe, FromLe;
  }

  /** The receiver undoes the seal and is left with the plaintext. */
  lemma OpenSealed(aes: Cipher, inverse: Cipher, sha: Sha256, authKey: seq<byte>, authKeyId: u64,
                   plaintext: seq<byte>, x: nat)
    requires |authKey| == 256 && x <= 8 && |plaintext| % 16 == 0
    requires Inverse(inverse, aes)
    ensures Opened(inverse, sha, authKey, authKeyId, Sealed(aes, sha, authKey, authKeyId, plaintext, x), x)
            == ParsePlain(plaintext)
  {
    var msgKey := MsgKey(sha, authKey, plaintext, x);
    var (key, iv) := AesKeyAndIv(sha, authKey, msgKey, x);
    var data := Sealed(aes, sha, authKey, authKeyId, plaintext, x);
    var tail := Encrypted(aes(key), iv[..16], iv[16..], plaintext);
    assert data[0..8] == Be(authKeyId, 8) && data[8..24] == msgKey && data[24..] == tail;
    Pow256Values();
    FromBeBe(authKeyId, 8);
    assert Undoes(inverse(key), aes(key));
    RoundTrip(aes(key), inverse(key), iv[..16], iv[16..], plaintext);
  }

  /** The header leads back to the payload exactly when its length fits an `i32`. */
  lemma ParseBuilt(salt: u64, session: u64, msgId: u64, seqNo: i32, payload: seq<byte>, padding: seq<byte>)
    ensures ParsePlain(Plaintext(salt, session, msgId, seqNo, payload, padding)) == Ok(Message(salt, msgId, payload))
            <==> |payload| < TWO_31
  {
    var plain := Plaintext(salt, session, msgId, seqNo, payload, padding);
    var len := U32Of(AsI32(|payload|));
    assert plain[0..8] == Le(salt, 8) && plain[16..24] == Le(msgId, 8) && plain[28..32] == Le(len, 4);
    Pow256Values();
    FromLeLe(salt, 8);
    FromLeLe(msgId, 8);
    FromLeLe(len, 4);
    if |payload| < TWO_31 {
      assert plain[32..32 + |payload|] == payload;
    } else {
      assert I32Of(len) != |payload|;
    }
  }

  /** Where everything is in a plaintext. */
  lemma PlaintextParts(salt: u64, session: u64, msgId: u64, seqNo: i32, payload: seq<byte>, padding: seq<byte>)
    ensures var plain := Plaintext(salt, session, msgId, seqNo, payload, padding);
            && plain[..8] == Le(salt, 8) && plain[8..16] == Le(session, 8) && plain[16..24] == Le(msgId, 8)
            && plain[24..28] == Le(if seqNo < 0 then seqNo + TWO_32 else seqNo, 4)
            && plain[28..32] == Le(|payload| % TWO_32, 4)
            && plain[32..32 + |payload|] == payload && plain[32 + |payload|..] == padding
  {
    hide Le;
    assert U32Of(AsI32(|payload|)) == |payload| % TWO_32;
  }

  /** What is accepted: a plaintext with any session id and sequence number, whose payload is
      shorter than 2^31 bytes. */
  lemma ParseExactly(plain: seq<byte>, m: Message)
    ensures ParsePlain(plain) == Ok(m) <==>
            |m.payload| < TWO_31
            && exists session: u64, seqNo: i32, padding: seq<byte> ::
                 plain == Plaintext(m.salt, session, m.msgId, seqNo, m.payload, padding)
  {
    if ParsePlain(plain) == Ok(m) {
      var session, seqNo, padding := Rebuilt(plain, m);
    }
    if exists session: u64, seqNo: i32, padding: seq<byte> ::
        plain == Plaintext(m.salt, session, m.msgId, seqNo, m.payload, padding) {
      var session: u64, seqNo: i32, padding: seq<byte> :|
        plain == Plaintext(m.salt, session, m.msgId, seqNo, m.payload, padding);
      hide ParsePlain, Plaintext;
      ParseBuilt(m.salt, session, m.msgId, seqNo, m.payload, padding);
    }
  }

  lemma Rebuilt(plain: seq<byte>, m: Message) returns (session: u64, seqNo: i32, padding: seq<byte>)
    requires ParsePlain(plain) == Ok(m)
    ensures |m.payload| < TWO_31 && plain == Plaintext(m.salt, session, m.msgId, seqNo, m.payload, padding)
  {
    Pow256Values();
    var len := |m.payload|;
    session, seqNo, padding := FromLe(plain[8..16]), I32Of(FromLe(plain[24..28])), plain[32 + len..];
    LeFromLe(plain[0..8]);
    LeFromLe(plain[8..16]);
    LeFromLe(plain[16..24]);
    LeFromLe(plain[24..28]);
    LeFromLe(plain[28..32]);
    hide Le, FromLe, Header;
    HeaderIs(plain, m.salt, session, m.msgId, seqNo, len);
    assert plain == plain[..32] + m.payload + padding;
  }

  lemma HeaderIs(plain: seq<byte>, salt: u64, session: u64, msgId: u64, seqNo: i32, len: nat)
    requires |plain| >= 32 && plain[0..8] == Le(salt, 8) && plain[8..16] == Le(session, 8)
    requires plain[16..24] == Le(msgId, 8) && plain[24..28] == Le(U32Of(seqNo), 4)
    requires plain[28..32] == Le(U32Of(AsI32(len)), 4)
    ensures plain[..32] == Header(salt, session, msgId, seqNo, len)
  {
    hide Le, U32Of, AsI32;
    assert plain[..32] == plain[0..8] + plain[8..16] + plain[16..24] + plain[24..28] + plain[28..32];
  }

  /** A message is accepted exactly when it names the key, is made of whole blocks, and
      decrypts to a plaintext that has the message key it was sent with. */
  lemma OpenedExactly(inverse: Cipher, sha: Sha256, authKey: seq<byte>, authKeyId: u64, data: seq<byte>, x: nat,
                      m: Message)
    requires |authKey| == 256 && x <= 8
    ensures Opened(inverse, sha, authKey, authKeyId, data, x) == Ok(m) <==>
            |data| >= 24 && |data| % 16 == 8 && data[..8] == Be(authKeyId, 8) &&
            var (key, iv) := AesKeyAndIv(sha, authKey, data[8..24], x);
            var plain := Decrypted(inverse(key), iv[..16], iv[16..], data[24..]);
            && data[8..24] == MsgKey(sha, authKey, plain, x) && ParsePlain(plain) == Ok(m)
  {
    hide AesKeyAndIv, MsgKey, ParsePlain, Decrypted, Encrypted, FromBe, Be;
    Pow256Values();
    FromBeBe(authKeyId, 8);
    if |data| >= 24 {
      BeFromBe(data[0..8]);
      assert data[0..8] == data[..8] && |data[24..]| % 16 == (|data| - 8) % 16;
    }
  }

  /** Opening what was sealed with the same offset returns salt, id and payload, exactly when
      the payload is shorter than 2^31 bytes. */
  lemma EnvelopeRoundTrip(aes: Cipher, inverse: Cipher, sha: Sha256, authKey: seq<byte>, authKeyId: u64,
                          salt: u64, session: u64, msgId: u64, seqNo: i32, packed: seq<byte>, padding: seq<byte>,
                          x: nat)
    requires |authKey| == 256 && x <= 8 && Inverse(inverse, aes) && (|packed| + |padding|) % 16 == 0
    ensures var sealed := Sealed(aes, sha, authKey, authKeyId,
                                 Plaintext(salt, session, msgId, seqNo, packed, padding), x);
            Opened(inverse, sha, authKey, authKeyId, sealed, x) == Ok(Message(salt, msgId, packed))
            <==> |packed| < TWO_31
  {
    OpenSealed(aes, inverse, sha, authKey, authKeyId, Plaintext(salt, session, msgId, seqNo, packed, padding), x);
    ParseBuilt(salt, session, msgId, seqNo, packed, padding);
  }
}
