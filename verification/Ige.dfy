/** `src/crypto.rs`: AES-256-IGE over any block permutation. */
module Ige {
  import opened Wrappers
  import opened Bytes

  type Block = b: seq<byte> | |b| == 16 witness Zeros(16)

  type BlockFunction = Block -> Block

  /** `d` undoes `e`. */
  ghost predicate Undoes(d: BlockFunction, e: BlockFunction) {
    forall b: Block :: d(e(b)) == b
  }

  predicate Whole(data: seq<byte>) {
    |data| % 16 == 0
  }

  /** `c = E(p ^ x) ^ y`, where `x` is the previous ciphertext and `y` the previous plaintext. */
  function EncBlock(e: BlockFunction, x: Block, y: Block, p: Block): Block {
    Xor(e(Xor(p, x)), y)
  }

  /** `p = D(c ^ y) ^ x`. */
  function DecBlock(d: BlockFunction, x: Block, y: Block, c: Block): Block {
    Xor(d(Xor(c, y)), x)
  }

  /** The chain of ciphertext blocks. */
  function Encrypted(e: BlockFunction, x: Block, y: Block, data: seq<byte>): (r: seq<byte>)
    requires Whole(data)
    ensures |r| == |data|
    decreases |data|
  {
    if data == [] then []
    else
      var c := EncBlock(e, x, y, data[..16]);
      c + Encrypted(e, c, data[..16], data[16..])
  }

  function Decrypted(d: BlockFunction, x: Block, y: Block, data: seq<byte>): (r: seq<byte>)
    requires Whole(data)
    ensures |r| == |data|
    decreases |data|
  {
    if data == [] then []
    else
      var p := DecBlock(d, x, y, data[..16]);
      p + Decrypted(d, data[..16], p, data[16..])
  }

  /** Block `k` of a string of whole blocks. */
  function BlockAt(data: seq<byte>, k: nat): Block
    requires Whole(data) && 16 * k + 16 <= |data|
  {
    data[16 * k..16 * k + 16]
  }

  /** Every ciphertext block is made of its plaintext block and the two blocks before it; the
      initial pair stands in for those of the first block. */
  lemma {:induction false} ChainAt(e: BlockFunction, x: Block, y: Block, data: seq<byte>, k: nat)
    requires Whole(data) && 16 * k + 16 <= |data|
    ensures var out := Encrypted(e, x, y, data);
            var before, after := if k == 0 then x else BlockAt(out, k - 1), if k == 0 then y else BlockAt(data, k - 1);
            BlockAt(out, k) == Xor(e(Xor(BlockAt(data, k), before)), after)
    decreases k
  {
    var c, rest := EncBlock(e, x, y, data[..16]), data[16..];
    var tail := Encrypted(e, c, data[..16], rest);
    EncryptedStep(e, x, y, [], data);
    assert Encrypted(e, x, y, data) == c + tail;
    hide Encrypted, XorByte, Xor;
    HeadBlock(c, tail);
    HeadBlock(data[..16], rest);
    assert data == data[..16] + rest;
    if k > 0 {
      ChainAt(e, c, data[..16], rest, k - 1);
      LaterBlock(c, tail, k);
      LaterBlock(data[..16], rest, k);
      if k > 1 {
        LaterBlock(c, tail, k - 1);
        LaterBlock(data[..16], rest, k - 1);
      }
    }
  }

  lemma HeadBlock(b: Block, rest: seq<byte>)
    requires Whole(rest)
    ensures Whole(b + rest) && BlockAt(b + rest, 0) == b
  {
  }

  lemma LaterBlock(b: Block, rest: seq<byte>, k: nat)
    requires Whole(rest) && 0 < k && 16 * k <= |rest|
    ensures Whole(b + rest) && BlockAt(b + rest, k) == BlockAt(rest, k - 1)
  {
  }

  lemma BlockBack(e: BlockFunction, d: BlockFunction, x: Block, y: Block, p: Block)
    ensures Undoes(d, e) ==> DecBlock(d, x, y, EncBlock(e, x, y, p)) == p
    ensures Undoes(e, d) ==> EncBlock(e, x, y, DecBlock(d, x, y, p)) == p
  {
    XorCancel(e(Xor(p, x)), y);
    XorCancel(p, x);
    XorCancel(d(Xor(p, y)), x);
    XorCancel(p, y);
  }

  /** Decrypting what was encrypted, and encrypting what was decrypted, for any number of
      blocks and any initial pair. */
  lemma {:induction false} RoundTrip(e: BlockFunction, d: BlockFunction, x: Block, y: Block, data: seq<byte>)
    requires Whole(data)
    ensures Undoes(d, e) ==> Decrypted(d, x, y, Encrypted(e, x, y, data)) == data
    ensures Undoes(e, d) ==> Encrypted(e, x, y, Decrypted(d, x, y, data)) == data
    decreases |data|
  {
    if data != [] {
      var p: Block := data[..16];
      BlockBack(e, d, x, y, p);
      assert data == p + data[16..];
      var c := EncBlock(e, x, y, p);
      var out := Encrypted(e, x, y, data);
      assert out[..16] == c && out[16..] == Encrypted(e, c, p, data[16..]);
      RoundTrip(e, d, c, p, data[16..]);
      var q := DecBlock(d, x, y, p);
      var back := Decrypted(d, x, y, data);
      assert back[..16] == q && back[16..] == Decrypted(d, p, q, data[16..]);
      RoundTrip(e, d, p, q, data[16..]);
    }
  }

  /** One turn of the loop: `done` bytes are replaced, `rest` is still to do. */
  lemma EncryptedStep(e: BlockFunction, x: Block, y: Block, done: seq<byte>, rest: seq<byte>)
    requires Whole(rest) && rest != []
    ensures var c := EncBlock(e, x, y, rest[..16]);
            (done + c) + Encrypted(e, c, rest[..16], rest[16..]) == done + Encrypted(e, x, y, rest)
  {
  }

  lemma DecryptedStep(d: BlockFunction, x: Block, y: Block, done: seq<byte>, rest: seq<byte>)
    requires Whole(rest) && rest != []
    ensures var p := DecBlock(d, x, y, rest[..16]);
            (done + p) + Decrypted(d, rest[..16], p, rest[16..]) == done + Decrypted(d, x, y, rest)
  {
  }

  /** `aes_ige_encrypt`: in place; a length that is not whole blocks is refused untouched. */
  method AesIgeEncrypt(data: array<byte>, e: BlockFunction, iv: seq<byte>) returns (r: Result<()>)
    requires |iv| == 32
    modifies data
    ensures !Whole(old(data[..])) ==> r == Err(Crypto) && data[..] == old(data[..])
    ensures Whole(old(data[..])) ==>
              r == Ok(()) && data[..] == Encrypted(e, iv[..16], iv[16..], old(data[..]))
  {
    if data.Length % 16 != 0 { return Err(Crypto); }
    if data.Length == 0 { return Ok(()); }
    var x: Block, y: Block := iv[..16], iv[16..];
    ghost var was := data[..];
    hide Encrypted, Decrypted, EncBlock, DecBlock;
    var at := 0;
    assert was[at..] == was && data[..at] == [];
    while at < data.Length
      invariant 0 <= at <= data.Length && at % 16 == 0
      invariant data[at..] == was[at..]
      invariant data[..at] + Encrypted(e, x, y, was[at..]) == Encrypted(e, iv[..16], iv[16..], was)
    {
      var p: Block := data[at..at + 16];
      var c := EncBlock(e, x, y, p);
      assert was[at..][..16] == p && was[at..][16..] == was[at + 16..];
      EncryptedStep(e, x, y, data[..at], was[at..]);
      CopyBlock(data, at, c);
      x, y := c, p;
      at := at + 16;
    }
    FinalBlock(data[..], Encrypted(e, x, y, was[at..]));
    r := Ok(());
  }

  /** `aes_ige_decrypt`. */
  method AesIgeDecrypt(data: array<byte>, d: BlockFunction, iv: seq<byte>) returns (r: Result<()>)
    requires |iv| == 32
    modifies data
    ensures !Whole(old(data[..])) ==> r == Err(Crypto) && data[..] == old(data[..])
    ensures Whole(old(data[..])) ==>
              r == Ok(()) && data[..] == Decrypted(d, iv[..16], iv[16..], old(data[..]))
  {
    if data.Length % 16 != 0 { return Err(Crypto); }
    if data.Length == 0 { return Ok(()); }
    var x: Block, y: Block := iv[..16], iv[16..];
    ghost var was := data[..];
    hide Encrypted, Decrypted, EncBlock, DecBlock;
    var at := 0;
    assert was[at..] == was && data[..at] == [];
    while at < data.Length
      invariant 0 <= at <= data.Length && at % 16 == 0
      invariant data[at..] == was[at..]
      invariant data[..at] + Decrypted(d, x, y, was[at..]) == Decrypted(d, iv[..16], iv[16..], was)
    {
      var c: Block := data[at..at + 16];
      var p := DecBlock(d, x, y, c);
      assert was[at..][..16] == c && was[at..][16..] == was[at + 16..];
      DecryptedStep(d, x, y, data[..at], was[at..]);
      CopyBlock(data, at, p);
      x, y := c, p;
      at := at + 16;
    }
    FinalBlock(data[..], Decrypted(d, x, y, was[at..]));
    r := Ok(());
  }

  method CopyBlock(data: array<byte>, at: nat, b: Block)
    requires at + 16 <= data.Length
    modifies data
    ensures data[..at] == old(data[..at])
    ensures data[at..at + 16] == b && data[..at + 16] == old(data[..at]) + b
    ensures data[at + 16..] == old(data[at + 16..])
  {
    for i := 0 to 16
      invariant data[..at] == old(data[..at])
      invariant forall k :: 0 <= k < i ==> data[at + k] == b[k]
      invariant data[at + 16..] == old(data[at + 16..])
    {
      data[at + i] := b[i];
    }
  }

  lemma FinalBlock(done: seq<byte>, rest: seq<byte>)
    requires |rest| == 0
    ensures done + rest == done
  {
  }
}
