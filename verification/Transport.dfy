/** `src/transport.rs`: the AES-256-CTR streams of Obfuscated2 (section 6.5 and appendix
    B.1 of NIST SP 800-38A) over any block function. */
module Transport {
  import opened Wrappers
  import opened Bytes
  import opened NumberTheory
  import opened Serialize
  import opened Ige

  // ---- the counter ----

  const WRAP: nat := Pow256(16)

  /** The counter after `k` blocks: a 128-bit big-endian number that wraps. */
  function Advance(c: Block, k: nat): Block {
    Be((FromBe(c) + k) % WRAP, 16)
  }

  lemma AdvanceAdds(c: Block, m: nat, n: nat)
    ensures Advance(c, 0) == c
    ensures Advance(Advance(c, m), n) == Advance(c, m + n)
  {
    hide FromBe, Be, Pow256;
    var v := FromBe(c);
    BeFromBe(c);
    SmallMod(v, WRAP);
    FromBeBe((v + m) % WRAP, 16);
    ModSum(v + m, n, WRAP);
  }

  lemma ModSum(a: nat, b: nat, p: nat)
    requires p > 0
    ensures (a % p + b) % p == (a + b) % p
  {
    var q := a / p;
    var r := (a % p + b) % p;
    var k := (a % p + b) / p;
    assert a == p * q + a % p;
    assert a % p + b == p * k + r;
    assert a + b == p * (q + k) + r;
    DivUnique(a + b, p, q + k, r);
  }

  /** `wrapping_add(1)`. */
  function WrappingInc(b: byte): byte {
    if b == 255 then 0 else b + 1
  }

  /** One more, with the carry rippling from the last byte. */
  function Increment(s: seq<byte>): (r: seq<byte>)
    ensures |r| == |s|
  {
    if s == [] then []
    else
      var n := |s| - 1;
      if s[n] == 255 then Increment(s[..n]) + [0] else s[..n] + [s[n] + 1]
  }

  lemma {:induction false} IncrementValue(s: seq<byte>)
    ensures FromBe(Increment(s)) == (FromBe(s) + 1) % Pow256(|s|)
  {
    if s != [] {
      var n := |s| - 1;
      var p := s[..n];
      assert s == p + [s[n]];
      var top := Pow256(n);
      assert Pow256(|s|) == 256 * top;
      FromBeLast(p, s[n]);
      if s[n] == 255 {
        IncrementValue(p);
        FromBeLast(Increment(p), 0);
        ScaleMod(FromBe(p) + 1, top);
      } else {
        FromBeLast(p, s[n] + 1);
        SmallMod(FromBe(s) + 1, 256 * top);
      }
    }
  }

  lemma ScaleMod(a: nat, m: nat)
    requires m > 0
    ensures (256 * a) % (256 * m) == 256 * (a % m)
  {
    assert 256 * a == (256 * m) * (a / m) + 256 * (a % m);
    DivUnique(256 * a, 256 * m, a / m, 256 * (a % m));
  }

  lemma IncrementIsAdvance(c: Block)
    ensures Increment(c) == Advance(c, 1)
  {
    hide Increment, FromBe, Be;
    IncrementValue(c);
    BeFromBe(Increment(c));
  }

  // ---- the keystream ----

  function KeyByte(e: Ige.BlockFunction, c: Block, i: nat): byte {
    e(Advance(c, i / 16))[i % 16]
  }

  /** Each byte meets its keystream byte. */
  function Crypted(e: Ige.BlockFunction, c: Block, data: seq<byte>): (r: seq<byte>)
    ensures |r| == |data|
  {
    seq(|data|, i requires 0 <= i < |data| => XorByte(data[i], KeyByte(e, c, i)))
  }

  /** The first sixteen bytes meet the block of the counter itself; `CutAtWholeBlock` says
      what the later ones meet. */
  lemma FirstBlock(e: Ige.BlockFunction, c: Block, data: seq<byte>, i: nat)
    requires i < 16 && i < |data|
    ensures Crypted(e, c, data)[i] == XorByte(data[i], e(c)[i])
  {
    AdvanceAdds(c, 0, 0);
  }

  /** Counter steps one call takes: a started block is spent whole. */
  function Blocks(n: nat): nat {
    (n + 15) / 16
  }

  lemma KeyShift(e: Ige.BlockFunction, c: Block, m: nat, i: nat)
    ensures KeyByte(e, c, 16 * m + i) == KeyByte(e, Advance(c, m), i)
  {
    hide Advance;
    DivUnique(16 * m + i, 16, m + i / 16, i % 16);
    AdvanceAdds(c, m, i / 16);
  }

  /** A cut at a whole block changes nothing: the second call goes on where the first stopped. */
  lemma CutAtWholeBlock(e: Ige.BlockFunction, c: Block, a: seq<byte>, b: seq<byte>)
    requires |a| % 16 == 0
    ensures Crypted(e, c, a + b) == Crypted(e, c, a) + Crypted(e, Advance(c, Blocks(|a|)), b)
    ensures Advance(c, Blocks(|a + b|)) == Advance(Advance(c, Blocks(|a|)), Blocks(|b|))
  {
    hide KeyByte, Advance;
    var m := |a| / 16;
    assert Blocks(|a|) == m && Blocks(|a + b|) == m + Blocks(|b|);
    AdvanceAdds(c, m, Blocks(|b|));
    forall i | 0 <= i < |b| ensures KeyByte(e, c, |a| + i) == KeyByte(e, Advance(c, m), i) {
      KeyShift(e, c, m, i);
    }
  }

  /** Two streams with equal key and counter undo each other and stay in step. */
  lemma CryptUndoes(e: Ige.BlockFunction, c: Block, data: seq<byte>)
    ensures Crypted(e, c, Crypted(e, c, data)) == data
  {
    var key := seq(|data|, i requires 0 <= i < |data| => KeyByte(e, c, i));
    var once := Crypted(e, c, data);
    assert once == Xor(data, key);
    assert Crypted(e, c, once) == Xor(once, key);
    XorCancel(data, key);
  }

  /** A run of calls on one stream. */
  function CryptedAll(e: Ige.BlockFunction, c: Block, calls: seq<seq<byte>>): (r: seq<seq<byte>>)
    ensures |r| == |calls|
    decreases |calls|
  {
    if calls == [] then []
    else [Crypted(e, c, calls[0])] + CryptedAll(e, Advance(c, Blocks(|calls[0]|)), calls[1..])
  }

  /** Lock step over any run: a second stream with the same key and counter, called with
      the same lengths, undoes every call. */
  lemma {:induction false} StreamsUndo(e: Ige.BlockFunction, c: Block, calls: seq<seq<byte>>)
    ensures CryptedAll(e, c, CryptedAll(e, c, calls)) == calls
    decreases |calls|
  {
    hide Crypted, Advance;
    if calls != [] {
      var out := CryptedAll(e, c, calls);
      CryptUndoes(e, c, calls[0]);
      CryptedLength(e, c, calls[0]);
      StreamsUndo(e, Advance(c, Blocks(|calls[0]|)), calls[1..]);
      assert out[1..] == CryptedAll(e, Advance(c, Blocks(|calls[0]|)), calls[1..]);
    }
  }

  lemma CryptedLength(e: Ige.BlockFunction, c: Block, data: seq<byte>)
    ensures |Crypted(e, c, data)| == |data|
  {
  }

  class AesCtr {
    const cipher: Ige.BlockFunction
    const counter: array<byte>

    ghost predicate Valid()
      reads this
    {
      counter.Length == 16
    }

    ghost function Counter(): Block
      reads this, counter
      requires Valid()
    {
      counter[..]
    }

    constructor (cipher: Ige.BlockFunction, iv: Block)
      ensures Valid() && this.cipher == cipher && Counter() == iv && fresh(counter)
    {
      this.cipher := cipher;
      counter := new byte[16](i requires 0 <= i < 16 => iv[i]);
      new;
      assert counter[..] == iv;
    }

    /** `crypt`: in place, whatever the length; the counter moves by whole blocks. */
    method Crypt(data: array<byte>)
      requires Valid() && data != counter
      modifies data, counter
      ensures data[..] == Crypted(cipher, old(Counter()), old(data[..]))
      ensures Counter() == Advance(old(Counter()), Blocks(data.Length))
    {
      ghost var was, c := data[..], Counter();
      ghost var done := 0;
      var at := 0;
      Untouched(cipher, c, was);
      hide Crypted, Advance, HalfDone, Blocks;
      while at < data.Length
        invariant 0 <= at <= data.Length && Spent(at, done, data.Length)
        invariant done > 0 ==> 16 * (done - 1) < data.Length
        invariant Counter() == Advance(c, done)
        invariant HalfDone(cipher, c, was, data[..], at)
      {
        var block := cipher(counter[..]);
        var end := if at + 16 <= data.Length then at + 16 else data.Length;
        ghost var before := data[..];
        XorChunk(data, at, end, block);
        ChunkDone(cipher, c, was, before, data[..], at, end, done);
        Step();
        AdvanceAdds(c, done, 1);
        done := done + 1;
        at := end;
      }
      AllDone(cipher, c, was, data[..], done);
    }

    /** The 128-bit increment. */
    method Step()
      requires Valid()
      modifies counter
      ensures Counter() == Advance(old(Counter()), 1)
    {
      ghost var was := counter[..];
      IncrementIsAdvance(was);
      Start(was);
      hide *;
      var i := 15;
      while i >= 0
        invariant -1 <= i <= 15 && Rippled(was, counter[..], i + 1)
      {
        ghost var before := counter[..];
        Ripple(was, before, i);
        counter[i] := WrappingInc(counter[i]);
        assert counter[..] == before[i := counter[i]];
        if counter[i] != 0 { return; }
        i := i - 1;
      }
      AllRippled(was, counter[..]);
    }
  }

  /** Bytes from `n` on were 255 and have become 0; the others are still to do. */
  ghost predicate Rippled(was: seq<byte>, now: seq<byte>, n: nat) {
    && |was| == |now| == 16 && n <= 16
    && now[..n] == was[..n] && now[n..] == Zeros(16 - n)
    && Increment(was[..n]) + Zeros(16 - n) == Increment(was)
  }

  lemma Start(was: Block)
    ensures Rippled(was, was, 16)
  {
    assert was[..16] == was;
    assert Increment(was) + Zeros(0) == Increment(was);
  }

  lemma Ripple(was: seq<byte>, now: seq<byte>, i: nat)
    requires i < 16 && Rippled(was, now, i + 1)
    ensures |now| == 16 && i < |now|
    ensures WrappingInc(now[i]) == 0 ==> Rippled(was, now[i := 0], i)
    ensures WrappingInc(now[i]) != 0 ==> now[i := WrappingInc(now[i])] == Increment(was)
  {
    var head := was[..i + 1];
    IncrementLast(head);
    assert head[..i] == was[..i] && head[i] == was[i] == now[i];
    hide Increment;
    if now[i] == 255 {
      assert [0] + Zeros(15 - i) == Zeros(16 - i);
      assert now[i := 0][..i] == was[..i];
      assert now[i := 0][i..] == [0] + now[i + 1..];
      assert Increment(was[..i]) + Zeros(16 - i) == (Increment(was[..i]) + [0]) + Zeros(15 - i);
    } else {
      assert now[i := now[i] + 1] == (was[..i] + [was[i] + 1]) + Zeros(15 - i);
    }
  }

  lemma AllRippled(was: seq<byte>, now: seq<byte>)
    requires Rippled(was, now, 0)
    ensures now == Increment(was)
  {
    assert was[..0] == [] && Increment(was[..0]) == [];
  }

  lemma IncrementLast(s: seq<byte>)
    requires s != []
    ensures var n := |s| - 1;
            Increment(s) == if s[n] == 255 then Increment(s[..n]) + [0] else s[..n] + [s[n] + 1]
  {
  }

  method XorChunk(data: array<byte>, at: nat, end: nat, block: Block)
    requires at <= end <= data.Length && end <= at + 16
    modifies data
    ensures XoredPart(old(data[..]), data[..], at, end, block)
  {
    ghost var was := data[..];
    for i := at to end
      invariant XoredPart(was, data[..], at, i, block)
    {
      data[i] := XorByte(data[i], block[i - at]);
    }
  }

  /** `now` is `was` with the bytes from `at` to `end` combined with the block. */
  ghost predicate XoredPart(was: seq<byte>, now: seq<byte>, at: nat, end: nat, block: Block) {
    && |now| == |was| && at <= end <= |was| && end <= at + 16
    && forall k :: 0 <= k < |was| ==> now[k] == if at <= k < end then XorByte(was[k], block[k - at]) else was[k]
  }

  /** The first `at` bytes are through, in `done` blocks; the last block may be short. */
  predicate Spent(at: nat, done: nat, length: nat) {
    at == if 16 * done <= length then 16 * done else length
  }

  ghost predicate HalfDone(e: Ige.BlockFunction, c: Block, was: seq<byte>, now: seq<byte>, at: nat) {
    && |now| == |was| && at <= |was|
    && forall k :: 0 <= k < |was| ==> now[k] == if k < at then XorByte(was[k], KeyByte(e, c, k)) else was[k]
  }

  lemma Untouched(e: Ige.BlockFunction, c: Block, was: seq<byte>)
    ensures HalfDone(e, c, was, was, 0) && Advance(c, 0) == c
  {
    AdvanceAdds(c, 0, 0);
  }

  lemma ChunkDone(e: Ige.BlockFunction, c: Block, was: seq<byte>, before: seq<byte>, now: seq<byte>, at: nat,
                  end: nat, done: nat)
    requires at == 16 * done && HalfDone(e, c, was, before, at)
    requires XoredPart(before, now, at, end, e(Advance(c, done)))
    ensures HalfDone(e, c, was, now, end)
  {
    forall k | at <= k < end ensures KeyByte(e, c, k) == e(Advance(c, done))[k - at] {
      DivUnique(k, 16, done, k - at);
    }
  }

  lemma AllDone(e: Ige.BlockFunction, c: Block, was: seq<byte>, now: seq<byte>, done: nat)
    requires HalfDone(e, c, was, now, |was|) && Spent(|was|, done, |was|) && (done > 0 ==> 16 * (done - 1) < |was|)
    ensures now == Crypted(e, c, was) && done == Blocks(|was|)
  {
  }

  // ---- Obfuscated2 ----

  datatype Protocol = Intermediate | IntermediatePadded

  function Tag(protocol: Protocol): u32 {
    if protocol == Intermediate then 0xEEEEEEEE else 0xDDDDDDDD
  }

  /** The four tag bytes and the two bytes of the data centre over a random block. */
  function Stamped(draw: seq<byte>, protocol: Protocol, dc: u32): (r: seq<byte>)
    requires |draw| == 64
    ensures |r| == 64
  {
    draw[..56] + Le(Tag(protocol), 4) + Le(dc % 0x1_0000, 2) + draw[62..]
  }

  /** Everything but the tag and the data centre is as it was drawn. */
  lemma StampedParts(draw: seq<byte>, protocol: Protocol, dc: u32)
    requires |draw| == 64
    ensures var init := Stamped(draw, protocol, dc);
            && init[56..60] == (if protocol.Intermediate? then [0xEE, 0xEE, 0xEE, 0xEE] else [0xDD, 0xDD, 0xDD, 0xDD])
            && init[60] == dc % 256 && init[61] == dc / 256 % 256
            && init[..56] == draw[..56] && init[62..] == draw[62..]
  {
    LeFour(Tag(protocol));
    assert Le(Tag(protocol), 4)
        == if protocol.Intermediate? then [0xEE, 0xEE, 0xEE, 0xEE] else [0xDD, 0xDD, 0xDD, 0xDD];
    TwoBytes(dc);
    hide Le, Tag;
    var tag, dcBytes := Le(Tag(protocol), 4), Le(dc % 0x1_0000, 2);
    var init := Stamped(draw, protocol, dc);
    assert init == draw[..56] + tag + dcBytes + draw[62..];
    assert init[60] == dcBytes[0] && init[61] == dcBytes[1];
  }

  lemma TwoBytes(dc: u32)
    ensures Le(dc % 0x1_0000, 2) == [dc % 256, dc / 256 % 256]
  {
    var high, low := dc / 0x1_0000, dc % 0x1_0000;
    SplitWord(dc, high, low);
    assert Le(low / 256, 1) == [low / 256 % 256] + Le(low / 256 / 256, 0);
    assert Le(low, 2) == [low % 256] + Le(low / 256, 1);
  }

  lemma SplitWord(dc: nat, high: nat, low: nat)
    requires dc == 0x1_0000 * high + low && low < 0x1_0000
    ensures low % 256 == dc % 256 && low / 256 % 256 == dc / 256 % 256
  {
    assert dc / 256 == 256 * high + low / 256;
  }

  /** What a server would mistake for another protocol. */
  predicate Refused(init: seq<byte>)
    requires |init| == 64
  {
    || FromLe(init[0..4]) in {0x44414548, 0x54534F50, 0x20544547, 0x4954504F, 0x02010316, 0xDDDDDDDD, 0xEEEEEEEE}
    || init[0] == 0xEF
    || init[4..8] == [0, 0, 0, 0]
  }

  predicate Begins(init: seq<byte>, a: byte, b: byte, c: byte, d: byte)
    requires |init| >= 4
  {
    init[0] == a && init[1] == b && init[2] == c && init[3] == d
  }

  /** Blocks that begin like HTTP (`HEAD`, `POST`, `GET `, `OPTI`), like TLS, like the tags of
      the unobfuscated protocols, or with the one byte of the abridged one. */
  lemma RefusedMeans(init: seq<byte>)
    requires |init| == 64
    ensures Refused(init) <==>
            || Begins(init, 0x48, 0x45, 0x41, 0x44) || Begins(init, 0x50, 0x4F, 0x53, 0x54)
            || Begins(init, 0x47, 0x45, 0x54, 0x20) || Begins(init, 0x4F, 0x50, 0x54, 0x49)
            || Begins(init, 0x16, 0x03, 0x01, 0x02)
            || Begins(init, 0xDD, 0xDD, 0xDD, 0xDD) || Begins(init, 0xEE, 0xEE, 0xEE, 0xEE)
            || init[0] == 0xEF
            || (init[4] == init[5] == init[6] == init[7] == 0)
  {
    hide FromLe, Begins;
    assert init[4..8] == [init[4], init[5], init[6], init[7]];
    WordIs(init, 0x44414548, 0x48, 0x45, 0x41, 0x44);
    WordIs(init, 0x54534F50, 0x50, 0x4F, 0x53, 0x54);
    WordIs(init, 0x20544547, 0x47, 0x45, 0x54, 0x20);
    WordIs(init, 0x4954504F, 0x4F, 0x50, 0x54, 0x49);
    WordIs(init, 0x02010316, 0x16, 0x03, 0x01, 0x02);
    WordIs(init, 0xDDDDDDDD, 0xDD, 0xDD, 0xDD, 0xDD);
    WordIs(init, 0xEEEEEEEE, 0xEE, 0xEE, 0xEE, 0xEE);
  }

  lemma WordIs(init: seq<byte>, word: u32, a: byte, b: byte, c: byte, d: byte)
    requires |init| >= 4
    requires word % 256 == a && word / 256 % 256 == b && word / 0x1_0000 % 256 == c && word / 0x100_0000 % 256 == d
    ensures FromLe(init[0..4]) == word <==> Begins(init, a, b, c, d)
  {
    hide FromLe, Le;
    var s := init[0..4];
    Pow256Values();
    LeFour(word);
    FromLeLe(word, 4);
    LeFromLe(s);
    assert s == [init[0], init[1], init[2], init[3]];
  }

  /** `generate_obfuscated2_init` over given draws: the first one that is not refused. */
  method GenerateInit(protocol: Protocol, dc: u32, draws: seq<seq<byte>>) returns (r: Option<seq<byte>>)
    requires forall d :: d in draws ==> |d| == 64
    ensures r.None? <==> forall d :: d in draws ==> Refused(Stamped(d, protocol, dc))
    ensures r.Some? ==>
              |r.value| == 64 && !Refused(r.value) && r.value[60] == dc % 256 && r.value[61] == dc / 256 % 256
              && r.value[56..60] == (if protocol.Intermediate? then [0xEE, 0xEE, 0xEE, 0xEE]
                                     else [0xDD, 0xDD, 0xDD, 0xDD])
              && exists i :: 0 <= i < |draws| && r.value == Stamped(draws[i], protocol, dc)
                             && forall j :: 0 <= j < i ==> Refused(Stamped(draws[j], protocol, dc))
  {
    hide Refused, Stamped;
    for i := 0 to |draws|
      invariant forall j :: 0 <= j < i ==> Refused(Stamped(draws[j], protocol, dc))
    {
      var data := Stamped(draws[i], protocol, dc);
      if !Refused(data) {
        StampedParts(draws[i], protocol, dc);
        return Some(data);
      }
    }
    r := None;
  }

  /** `obfuscated2_keys`: the client's two streams and the header it sends. */
  method Obfuscated2Keys(aes: seq<byte> -> Ige.BlockFunction, init: seq<byte>) returns (enc: AesCtr, dec: AesCtr,
                         header: seq<byte>)
    requires |init| == 64
    ensures fresh(enc) && fresh(dec) && enc.Valid() && dec.Valid()
    ensures enc.cipher == aes(init[8..40]) && enc.Counter() == Advance(init[40..56], 4)
    ensures header == init[..56] + Crypted(enc.cipher, init[40..56], init)[56..]
    ensures dec.cipher == aes(Reversed(init[8..56])[..32]) && dec.Counter() == Reversed(init[8..56])[32..]
  {
    enc := new AesCtr(aes(init[8..40]), init[40..56]);
    var encrypted := new byte[64](i requires 0 <= i < 64 => init[i]);
    assert encrypted[..] == init;
    enc.Crypt(encrypted);
    header := init[..56] + encrypted[56..];
    var reversed := Reversed(init[8..56]);
    dec := new AesCtr(aes(reversed[..32]), reversed[32..]);
  }

  /** A server that derives its streams from the header reads the tag and the data centre
      from it, and both directions start in step. */
  lemma ServerAgrees(aes: seq<byte> -> Ige.BlockFunction, init: seq<byte>)
    requires |init| == 64
    ensures var e := aes(init[8..40]);
            var header := init[..56] + Crypted(e, init[40..56], init)[56..];
            && aes(header[8..40]) == e && header[40..56] == init[40..56]
            && Crypted(aes(header[8..40]), header[40..56], header)[56..] == init[56..]
            && Advance(header[40..56], Blocks(|header|)) == Advance(init[40..56], 4)
            && Reversed(header[8..56]) == Reversed(init[8..56])
  {
    hide Crypted, Advance, Blocks, Reversed;
    var e := aes(init[8..40]);
    var c: Block := init[40..56];
    HeaderParts(init, Crypted(e, c, init));
    TailBack(e, c, init);
    assert Blocks(64) == 4 by { FourBlocks(); }
  }

  lemma FourBlocks()
    ensures Blocks(64) == 4
  {
  }

  lemma HeaderParts(init: seq<byte>, once: seq<byte>)
    requires |init| == |once| == 64
    ensures var header := init[..56] + once[56..];
            |header| == 64 && header[8..40] == init[8..40] && header[40..56] == init[40..56]
                && header[8..56] == init[8..56]
  {
  }

  lemma TailBack(e: Ige.BlockFunction, c: Block, init: seq<byte>)
    requires |init| == 64
    ensures var once := Crypted(e, c, init);
            Crypted(e, c, init[..56] + once[56..])[56..] == init[56..]
  {
    var once := Crypted(e, c, init);
    var header := init[..56] + once[56..];
    CryptUndoes(e, c, init);
    forall i | 56 <= i < 64 ensures Crypted(e, c, header)[i] == init[i] {
      CryptedAt(e, c, header, i);
      CryptedAt(e, c, once, i);
    }
    hide Crypted;
    assert Crypted(e, c, header)[56..] == init[56..];
  }

  lemma CryptedAt(e: Ige.BlockFunction, c: Block, data: seq<byte>, i: nat)
    requires i < |data|
    ensures Crypted(e, c, data)[i] == XorByte(data[i], KeyByte(e, c, i))
  {
    hide KeyByte, XorByte;
  }

  // ---- frames ----

  /** `send_frame`: length and payload in one call. */
  function SentFrame(e: Ige.BlockFunction, c: Block, payload: seq<byte>): (seq<byte>, Block) {
    var frame := Le(|payload|, 4) + payload;
    (Crypted(e, c, frame), Advance(c, Blocks(|frame|)))
  }

  /** `recv_frame`: the length in one call, the payload in another. */
  function ReceivedFrame(e: Ige.BlockFunction, c: Block, wire: seq<byte>): (seq<byte>, Block)
    requires |wire| >= 4
  {
    (Crypted(e, Advance(c, 1), wire[4..]), Advance(Advance(c, 1), Blocks(|wire| - 4)))
  }

  /** Both are runs of calls on one stream: one call when sending, two when receiving. */
  lemma FramesAreCalls(e: Ige.BlockFunction, c: Block, payload: seq<byte>, wire: seq<byte>)
    requires |wire| >= 4
    ensures [SentFrame(e, c, payload).0] == CryptedAll(e, c, [Le(|payload|, 4) + payload])
    ensures [Crypted(e, c, wire[..4]), ReceivedFrame(e, c, wire).0] == CryptedAll(e, c, [wire[..4], wire[4..]])
  {
    hide Crypted, Advance, Le;
    var calls := [wire[..4], wire[4..]];
    assert calls[1..] == [wire[4..]];
  }

  lemma AdvanceMoves(c: Block, m: nat)
    ensures Advance(c, m) != Advance(c, m + 1)
  {
    hide FromBe, Be;
    var v := FromBe(c) + m;
    FromBeBe(v % WRAP, 16);
    FromBeBe((v + 1) % WRAP, 16);
    assert WRAP > 1 by {
      assert Pow256(16) == 256 * Pow256(15);
    }
    NextResidue(v, WRAP);
  }

  lemma NextResidue(v: nat, p: nat)
    requires p > 1
    ensures v % p != (v + 1) % p
  {
    var q, r := v / p, v % p;
    if r + 1 < p {
      DivUnique(v + 1, p, q, r + 1);
    } else {
      DivUnique(v + 1, p, q + 1, 0);
    }
  }

  /** The keystream byte that hides byte `i` of a payload is the one it is uncovered with: the
      sender is four bytes into its first block, the receiver begins its second. */
  predicate SameKeyByte(e: Ige.BlockFunction, c: Block, i: nat) {
    KeyByte(e, c, 4 + i) == KeyByte(e, c, 16 + i)
  }

  /** The payload arrives exactly when the two stretches of keystream agree over its length. */
  lemma PayloadArrives(e: Ige.BlockFunction, c: Block, payload: seq<byte>)
    ensures var wire := SentFrame(e, c, payload).0;
            ReceivedFrame(e, c, wire).0 == payload <==> forall i :: 0 <= i < |payload| ==> SameKeyByte(e, c, i)
  {
    var wire := SentFrame(e, c, payload).0;
    var got := ReceivedFrame(e, c, wire).0;
    assert |got| == |payload|;
    hide *;
    forall i | 0 <= i < |payload| ensures got[i] == payload[i] <==> SameKeyByte(e, c, i) {
      ByteArrives(e, c, payload, i);
    }
  }

  lemma ByteArrives(e: Ige.BlockFunction, c: Block, payload: seq<byte>, i: nat)
    requires i < |payload|
    ensures var got := ReceivedFrame(e, c, SentFrame(e, c, payload).0).0;
            |got| == |payload| && (got[i] == payload[i] <==> SameKeyByte(e, c, i))
  {
    var frame := Le(|payload|, 4) + payload;
    assert frame[4 + i] == payload[i];
    hide KeyByte, Le, XorByte, Advance, Crypted;
    ShiftedByte(e, c, frame, i);
    MasksCancel(payload[i], KeyByte(e, c, 4 + i), KeyByte(e, c, 16 + i));
  }

  lemma ShiftedByte(e: Ige.BlockFunction, c: Block, frame: seq<byte>, i: nat)
    requires 4 + i < |frame|
    ensures Crypted(e, Advance(c, 1), Crypted(e, c, frame)[4..])[i]
            == XorByte(XorByte(frame[4 + i], KeyByte(e, c, 4 + i)), KeyByte(e, c, 16 + i))
  {
    hide KeyByte, XorByte, Advance, Crypted;
    CryptedAt(e, c, frame, 4 + i);
    CryptedAt(e, Advance(c, 1), Crypted(e, c, frame)[4..], i);
    KeyShift(e, c, 1, i);
  }

  /** The length word always arrives. */
  lemma LengthArrives(e: Ige.BlockFunction, c: Block, payload: seq<byte>)
    ensures var wire := SentFrame(e, c, payload).0; Crypted(e, c, wire[..4]) == Le(|payload|, 4)
  {
    var frame := Le(|payload|, 4) + payload;
    var wire := Crypted(e, c, frame);
    hide KeyByte, Le, XorByte, Crypted;
    forall i | 0 <= i < 4 ensures Crypted(e, c, wire[..4])[i] == Le(|payload|, 4)[i] {
      CryptedAt(e, c, frame, i);
      CryptedAt(e, c, wire[..4], i);
      MasksCancel(frame[i], KeyByte(e, c, i), KeyByte(e, c, i));
    }
  }

  /** The counters of a sender and a receiver that start in step are equal after a frame
      exactly when the payload length leaves a remainder of 0 or 13 to 15 modulo 16. */
  lemma FramesInStep(e: Ige.BlockFunction, c: Block, payload: seq<byte>)
    ensures var (wire, sender) := SentFrame(e, c, payload);
            sender == ReceivedFrame(e, c, wire).1 <==> |payload| % 16 == 0 || |payload| % 16 > 12
  {
    hide Crypted, Advance, Blocks;
    var n := |payload|;
    AdvanceAdds(c, 1, Blocks(n));
    FrameBlocks(n);
    AdvanceMoves(c, Blocks(n));
  }

  lemma FrameBlocks(n: nat)
    ensures Blocks(4 + n) == if n % 16 == 0 || n % 16 > 12 then 1 + Blocks(n) else Blocks(n)
  {
    var q, r := n / 16, n % 16;
    DivUnique(n + 15, 16, if r == 0 then q else q + 1, if r == 0 then 15 else r - 1);
    DivUnique(n + 19, 16, if r <= 12 then q + 1 else q + 2, if r <= 12 then r + 3 else r - 13);
  }
}
