/** `rsa_pad` of `src/crypto.rs` and what a server with the private exponent gets back.
    AES and SHA-256 are parameters; the random bytes of each try are a list of draws. */
module RsaPad {
  import opened Wrappers
  import opened Bytes
  import opened Ige
  import opened KeyExchange
  import opened Session

  type Filler = f: seq<byte> | |f| == 192 witness Zeros(192)

  /** The random bytes of one try: more than enough padding, and a temporary key. */
  datatype Draw = Draw(filler: Filler, tempKey: Digest)

  const ZERO_IV: seq<byte> := Zeros(32)

  /** 192 bytes: the data, then random ones. */
  function Padded(data: seq<byte>, filler: Filler): (r: seq<byte>)
    requires |data| <= 144
    ensures |r| == 192 && r[..|data|] == data
  {
    data + filler[..192 - |data|]
  }

  /** 256 bytes: the masked temporary key and the encrypted reversed data with its hash. */
  function KeyBlock(aes: Cipher, sha: Sha256, data: seq<byte>, d: Draw): (r: seq<byte>)
    requires |data| <= 144
    ensures |r| == 256
  {
    var padded := Padded(data, d.filler);
    var plain := Reversed(padded) + sha(d.tempKey + padded);
    var encrypted := Encrypted(aes(d.tempKey), ZERO_IV[..16], ZERO_IV[16..], plain);
    Xor(d.tempKey, sha(encrypted)) + encrypted
  }

  datatype PublicKey = PublicKey(n: seq<byte>, e: seq<byte>)

  /** The key, and what the padding turns into a number, fit together. */
  predicate Fits(aes: Cipher, sha: Sha256, key: PublicKey, data: seq<byte>, d: Draw)
    requires |data| <= 144
  {
    FromBe(KeyBlock(aes, sha, data, d)) < FromBe(key.n)
  }

  /** Draw `i` fits, and none before it did. */
  predicate FirstFit(aes: Cipher, sha: Sha256, key: PublicKey, data: seq<byte>, draws: seq<Draw>, i: int)
    requires |data| <= 144
  {
    && 0 <= i < |draws| && Fits(aes, sha, key, data, draws[i])
    && forall j :: 0 <= j < i ==> !Fits(aes, sha, key, data, draws[j])
  }

  /** `rsa_pad`: tries again with new random bytes until the block is below the modulus;
      `None` when the draws ran out. */
  method Pad(aes: Cipher, sha: Sha256, key: PublicKey, data: seq<byte>,
             draws: seq<Draw>) returns (r: Option<Result<seq<byte>>>)
    ensures |data| > 144 || |key.n| != 256 ==> r == Some(Err(Crypto))
    ensures |data| <= 144 && |key.n| == 256 ==>
              match r
              case None => forall d :: d in draws ==> !Fits(aes, sha, key, data, d)
              case Some(out) =>
                out.Ok? && FromBe(key.n) > 0 && FromBe(key.n) <= LIMIT &&
                |out.value| == 256 &&
                exists i :: FirstFit(aes, sha, key, data, draws, i) &&
                  FromBe(out.value)
                  == ModPow(FromBe(KeyBlock(aes, sha, data, draws[i])), FromBe(key.e), FromBe(key.n))
  {
    if |data| > 144 { return Some(Err(Crypto)); }
    if |key.n| != 256 { return Some(Err(Crypto)); }
    for i := 0 to |draws|
      invariant forall j :: 0 <= j < i ==> !Fits(aes, sha, key, data, draws[j])
    {
      var block := KeyBlock(aes, sha, data, draws[i]);
      if FromBe(block) < FromBe(key.n) {
        var n := FromBe(key.n);
        assert FirstFit(aes, sha, key, data, draws, i);
        return Some(BiguintTo256Bytes(ModPow(FromBe(block), FromBe(key.e), n)));
      }
    }
    r := None;
  }

  /** A server undoes the steps in reverse and checks the hash. */
  function Unpadded(inverse: Cipher, sha: Sha256, block: seq<byte>): Option<seq<byte>>
    requires |block| == 256
  {
    var encrypted := block[32..];
    var tempKey := Xor(block[..32], sha(encrypted));
    var plain := Decrypted(inverse(tempKey), ZERO_IV[..16], ZERO_IV[16..], encrypted);
    var padded := Reversed(plain[..192]);
    if plain[192..] == sha(tempKey + padded) then Some(padded) else None
  }

  /** Where everything is: the key under the hash of the rest, the payload and the random bytes
      backwards, and their hash with the key. */
  lemma KeyBlockMeans(aes: Cipher, inverse: Cipher, sha: Sha256, data: seq<byte>, d: Draw)
    requires |data| <= 144 && Inverse(inverse, aes)
    ensures var block := KeyBlock(aes, sha, data, d);
            var plain := Decrypted(inverse(d.tempKey), Zeros(16), Zeros(16), block[32..]);
            && (forall i :: 0 <= i < 32 ==> block[i] == XorByte(d.tempKey[i], sha(block[32..])[i]))
            && plain == Reversed(data + d.filler[..192 - |data|]) + sha(d.tempKey + data + d.filler[..192 - |data|])
  {
    var padded := Padded(data, d.filler);
    var plain := Reversed(padded) + sha(d.tempKey + padded);
    assert ZERO_IV[..16] == Zeros(16) && ZERO_IV[16..] == Zeros(16);
    var encrypted := Encrypted(aes(d.tempKey), Zeros(16), Zeros(16), plain);
    var block := KeyBlock(aes, sha, data, d);
    assert d.tempKey + data + d.filler[..192 - |data|] == d.tempKey + padded;
    var masked := Xor(d.tempKey, sha(encrypted));
    hide Encrypted, Decrypted, XorByte, Xor, Reversed;
    assert block == masked + encrypted;
    assert block[32..] == encrypted && forall i :: 0 <= i < 32 ==> block[i] == masked[i];
    assert Undoes(inverse(d.tempKey), aes(d.tempKey));
    RoundTrip(aes(d.tempKey), inverse(d.tempKey), Zeros(16), Zeros(16), plain);
  }

  /** The padding is undone for every payload and every draw. */
  lemma UnpadPadded(aes: Cipher, inverse: Cipher, sha: Sha256, data: seq<byte>, d: Draw)
    requires |data| <= 144 && Inverse(inverse, aes)
    ensures Unpadded(inverse, sha, KeyBlock(aes, sha, data, d)) == Some(Padded(data, d.filler))
  {
    var padded := Padded(data, d.filler);
    var plain := Reversed(padded) + sha(d.tempKey + padded);
    var encrypted := Encrypted(aes(d.tempKey), ZERO_IV[..16], ZERO_IV[16..], plain);
    var block := KeyBlock(aes, sha, data, d);
    assert block[32..] == encrypted && block[..32] == Xor(d.tempKey, sha(encrypted));
    XorCancel(d.tempKey, sha(encrypted));
    assert Undoes(inverse(d.tempKey), aes(d.tempKey));
    RoundTrip(aes(d.tempKey), inverse(d.tempKey), ZERO_IV[..16], ZERO_IV[16..], plain);
    assert plain[..192] == Reversed(padded) && plain[192..] == sha(d.tempKey + padded);
    assert Reversed(Reversed(padded)) == padded;
  }

  /** The server that holds the private exponent reads back the payload from the ciphertext
      of an accepted try. */
  lemma ServerReadsPayload(aes: Cipher, inverse: Cipher, sha: Sha256, key: PublicKey, private: nat, data: seq<byte>,
                          d: Draw)
    requires |data| <= 144 && Inverse(inverse, aes) && Fits(aes, sha, key, data, d)
    requires forall m: nat :: m < FromBe(key.n) ==>
              ModPow(ModPow(m, FromBe(key.e), FromBe(key.n)), private, FromBe(key.n)) == m
    ensures var n := FromBe(key.n);
            var number := ModPow(ModPow(FromBe(KeyBlock(aes, sha, data, d)), FromBe(key.e), n), private, n);
            var block := BiguintTo256Bytes(number);
            && block.Ok? && Unpadded(inverse, sha, block.value).Some?
            && Unpadded(inverse, sha, block.value).value[..|data|] == data
  {
    var block := KeyBlock(aes, sha, data, d);
    var m := FromBe(block);
    BeFromBe(block);
    var back := BiguintTo256Bytes(m).value;
    BeFromBe(back);
    UnpadPadded(aes, inverse, sha, data, d);
  }
}
