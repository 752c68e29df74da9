/** Bytes, little- and big-endian numbers and XOR, over mathematical integers. */
module Bytes {

  type byte = x: int | 0 <= x < 256

  const TWO_31: int := 0x8000_0000
  const TWO_32: int := 0x1_0000_0000
  const TWO_63: int := 0x8000_0000_0000_0000
  const TWO_64: int := 0x1_0000_0000_0000_0000

  type u32 = x: int | 0 <= x < TWO_32
  type u64 = x: int | 0 <= x < TWO_64
  type i32 = x: int | -TWO_31 <= x < TWO_31
  type i64 = x: int | -TWO_63 <= x < TWO_63

  /** Rust's `v as i32` from a wider integer: keep 32 bits, read them as two's complement. */
  function AsI32(v: int): (r: i32)
    ensures (r - v) % TWO_32 == 0
    ensures -TWO_31 <= v < TWO_31 ==> r == v
  {
    var m := v % TWO_32;
    if m < TWO_31 then m else m - TWO_32
  }

  /** The bit pattern of a signed integer: Rust's `v as u32` and `v as u64`. */
  function U32Of(v: i32): u32 { if v < 0 then v + TWO_32 else v }

  function U64Of(v: i64): u64 { if v < 0 then v + TWO_64 else v }

  function I64Of(v: u64): i64 { if v < TWO_63 then v else v - TWO_64 }

  function I32Of(v: u32): i32 { if v < TWO_31 then v else v - TWO_32 }

  function Pow256(n: nat): (r: nat)
    ensures r > 0
  {
    if n == 0 then 1 else 256 * Pow256(n - 1)
  }

  /** The `n` low bytes of `v`, least significant first (`to_le_bytes`). */
  function Le(v: nat, n: nat): (s: seq<byte>)
    ensures |s| == n
  {
    if n == 0 then [] else [v % 256] + Le(v / 256, n - 1)
  }

  /** `from_le_bytes`. */
  function FromLe(s: seq<byte>): (v: nat)
    ensures v < Pow256(|s|)
  {
    if s == [] then 0 else s[0] + 256 * FromLe(s[1..])
  }

  /** Four and eight bytes, spelled out. */
  lemma LeFour(v: u32)
    ensures Le(v, 4) == [v % 256, v / 256 % 256, v / 0x1_0000 % 256, v / 0x100_0000 % 256]
  {
    var a, b, c := v / 256, v / 256 / 256, v / 256 / 256 / 256;
    assert b == v / 0x1_0000 && c == v / 0x100_0000;
    assert Le(c, 1) == [c % 256] + Le(c / 256, 0);
    assert Le(b, 2) == [b % 256] + Le(c, 1);
    assert Le(a, 3) == [a % 256] + Le(b, 2);
    assert Le(v, 4) == [v % 256] + Le(a, 3);
  }

  lemma LowWord(v: nat)
    ensures v / 256 / 256 / 256 / 256 == v / TWO_32
    ensures v % TWO_32 % 256 == v % 256
    ensures v % TWO_32 / 256 % 256 == v / 256 % 256
    ensures v % TWO_32 / 0x1_0000 % 256 == v / 256 / 256 % 256
    ensures v % TWO_32 / 0x100_0000 % 256 == v / 256 / 256 / 256 % 256
  {
    var h, w := v / TWO_32, v % TWO_32;
    assert v / 256 == 0x100_0000 * h + w / 256;
    assert v / 256 / 256 == 0x1_0000 * h + w / 0x1_0000;
    assert v / 256 / 256 / 256 == 256 * h + w / 0x100_0000;
  }

  lemma LeEight(v: u64)
    ensures Le(v, 8) == Le(v % TWO_32, 4) + Le(v / TWO_32, 4)
  {
    var a, b, c := v / 256, v / 256 / 256, v / 256 / 256 / 256;
    LowWord(v);
    LeFour(v % TWO_32);
    assert Le(c, 5) == [c % 256] + Le(v / TWO_32, 4);
    assert Le(b, 6) == [b % 256] + Le(c, 5);
    assert Le(a, 7) == [a % 256] + Le(b, 6);
    assert Le(v, 8) == [v % 256] + Le(a, 7);
  }

  lemma Pow256Values()
    ensures Pow256(3) == 0x100_0000 && Pow256(4) == TWO_32 && Pow256(8) == TWO_64
  {
    assert Pow256(2) == 0x1_0000;
    assert Pow256(4) == 0x1_0000 * Pow256(2);
    assert Pow256(6) == 0x1_0000 * Pow256(4);
    assert Pow256(8) == 0x1_0000 * Pow256(6);
  }

  lemma {:induction false} FromLeLe(v: nat, n: nat)
    requires v < Pow256(n)
    ensures FromLe(Le(v, n)) == v
  {
    if n > 0 {
      FromLeLe(v / 256, n - 1);
      assert Le(v, n)[1..] == Le(v / 256, n - 1);
    }
  }

  lemma {:induction false} LeFromLe(s: seq<byte>)
    ensures Le(FromLe(s), |s|) == s
  {
    if s != [] {
      LeFromLe(s[1..]);
      assert FromLe(s) % 256 == s[0] && FromLe(s) / 256 == FromLe(s[1..]);
    }
  }

  /** `from_bytes_be`: most significant byte first. */
  function FromBe(s: seq<byte>): (v: nat)
    ensures v < Pow256(|s|)
  {
    if s == [] then 0 else 256 * FromBe(s[..|s| - 1]) + s[|s| - 1]
  }

  /** The bytes in front weigh as much as all values of those behind. */
  lemma {:induction false} FromBeSplit(high: seq<byte>, low: seq<byte>)
    ensures FromBe(high + low) == FromBe(high) * Pow256(|low|) + FromBe(low)
  {
    if low == [] {
      assert high + low == high;
    } else {
      var n := |low| - 1;
      var p, last := low[..n], low[n];
      FromBeSplit(high, p);
      FromBeLast(p, last);
      FromBeLast(high + p, last);
      assert low == p + [last] && high + low == (high + p) + [last];
      assert Pow256(n + 1) == 256 * Pow256(n);
      hide FromBe, Pow256;
      Scaled(FromBe(high), Pow256(n));
    }
  }

  lemma FromBeLast(p: seq<byte>, b: byte)
    ensures FromBe(p + [b]) == 256 * FromBe(p) + b
  {
    assert (p + [b])[..|p|] == p;
  }

  lemma Scaled(a: nat, b: nat)
    ensures a * (256 * b) == 256 * (a * b)
  {
  }

  /** Exactly `n` big-endian bytes. */
  function Be(v: nat, n: nat): (s: seq<byte>)
    ensures |s| == n
  {
    if n == 0 then [] else Be(v / 256, n - 1) + [v % 256]
  }

  lemma {:induction false} FromBeBe(v: nat, n: nat)
    requires v < Pow256(n)
    ensures FromBe(Be(v, n)) == v
  {
    if n > 0 {
      FromBeBe(v / 256, n - 1);
      assert Be(v, n)[..n - 1] == Be(v / 256, n - 1);
    }
  }

  lemma {:induction false} BeFromBe(s: seq<byte>)
    ensures Be(FromBe(s), |s|) == s
  {
    if s != [] {
      var p := s[..|s| - 1];
      BeFromBe(p);
      assert FromBe(s) % 256 == s[|s| - 1] && FromBe(s) / 256 == FromBe(p);
      assert s == p + [s[|s| - 1]];
    }
  }

  /** `BigUint::to_bytes_be`: the shortest big-endian form; zero is one zero byte. */
  function MinBe(v: nat): (s: seq<byte>)
    ensures |s| > 0
    ensures v > 0 ==> s[0] != 0
  {
    if v < 256 then [v] else MinBe(v / 256) + [v % 256]
  }

  lemma {:induction false} FromBeMinBe(v: nat)
    ensures FromBe(MinBe(v)) == v
  {
    if v < 256 {
      assert [v as byte][..0] == [];
    } else {
      FromBeMinBe(v / 256);
      assert MinBe(v)[..|MinBe(v)| - 1] == MinBe(v / 256);
    }
  }

  /** The shortest form fits in `n` bytes exactly when the number is below 256^n. */
  lemma {:induction false} MinBeLength(v: nat, n: nat)
    requires n > 0
    ensures |MinBe(v)| <= n <==> v < Pow256(n)
  {
    if v >= 256 {
      if n > 1 {
        MinBeLength(v / 256, n - 1);
      } else {
        assert Pow256(1) == 256 * Pow256(0);
      }
    } else {
      assert Pow256(n) == 256 * Pow256(n - 1);
    }
  }

  function Zeros(n: nat): (s: seq<byte>)
    ensures |s| == n
    ensures forall i :: 0 <= i < n ==> s[i] == 0
  {
    seq(n, _ => 0)
  }

  function Reversed(s: seq<byte>): (r: seq<byte>)
    ensures |r| == |s|
  {
    seq(|s|, i requires 0 <= i < |s| => s[|s| - 1 - i])
  }

  /** Big-endian is little-endian backwards. */
  lemma {:induction false} BeIsReversed(v: nat, n: nat)
    ensures Be(v, n) == Reversed(Le(v, n))
  {
    if n > 0 {
      BeIsReversed(v / 256, n - 1);
      var rest := Le(v / 256, n - 1);
      assert Le(v, n) == [v % 256] + rest;
      forall i | 0 <= i < n ensures Reversed(Le(v, n))[i] == (Reversed(rest) + [v % 256])[i] {
        if i < n - 1 {
          assert Le(v, n)[n - 1 - i] == rest[n - 2 - i];
        }
      }
    }
  }

  /** Left-padding with zero bytes does not change a big-endian number. */
  lemma {:induction false} FromBeZeros(n: nat, s: seq<byte>)
    ensures FromBe(Zeros(n) + s) == FromBe(s)
  {
    var t := Zeros(n) + s;
    if s == [] {
      if n > 0 {
        FromBeZeros(n - 1, s);
        assert t[..|t| - 1] == Zeros(n - 1) + s;
      }
    } else {
      FromBeZeros(n, s[..|s| - 1]);
      assert t[..|t| - 1] == Zeros(n) + s[..|s| - 1];
    }
  }

  /** Bitwise exclusive or on the `n` low bits, without bit-vectors. */
  function XorBits(a: nat, b: nat, n: nat): (r: nat)
  {
    if n == 0 then 0 else (a + b) % 2 + 2 * XorBits(a / 2, b / 2, n - 1)
  }

  /** `w & (1 << b) != 0`. */
  predicate Bit(w: nat, b: nat) {
    if b == 0 then w % 2 == 1 else Bit(w / 2, b - 1)
  }

  /** A bit of the result is set exactly when it is set in one argument and not in the other. */
  lemma {:induction false} XorBitsAt(a: nat, b: nat, n: nat, k: nat)
    ensures Bit(XorBits(a, b, n), k) <==> k < n && (Bit(a, k) <==> !Bit(b, k))
    decreases n, k
  {
    if n == 0 {
      NoBits(k);
    } else {
      var low, high := (a + b) % 2, XorBits(a / 2, b / 2, n - 1);
      Halves(low, high);
      assert XorBits(a, b, n) == low + 2 * high;
      hide XorBits;
      BitStep(low + 2 * high, k);
      BitStep(a, k);
      BitStep(b, k);
      hide Bit;
      if k > 0 {
        XorBitsAt(a / 2, b / 2, n - 1, k - 1);
      } else {
        LowBits(a, b);
      }
    }
  }

  lemma LowBits(a: nat, b: nat)
    ensures (a + b) % 2 == 1 <==> (a % 2 == 1 <==> b % 2 != 1)
  {
  }

  lemma BitStep(w: nat, b: nat)
    ensures Bit(w, b) <==> if b == 0 then w % 2 == 1 else Bit(w / 2, b - 1)
  {
  }

  lemma {:induction false} NoBits(k: nat)
    ensures !Bit(0, k)
  {
    if k > 0 {
      NoBits(k - 1);
    }
  }

  function Pow2(n: nat): (r: nat)
    ensures r > 0
  {
    if n == 0 then 1 else 2 * Pow2(n - 1)
  }

  lemma LowBitCancels(a: nat, b: nat, x: nat)
    requires x % 2 == (a + b) % 2
    ensures (x + b) % 2 == a % 2
  {
    var k := (x - (a + b)) / 2;
    assert x == a + b + 2 * k;
    assert x + b == a + 2 * (b + k);
  }

  lemma {:induction false} XorBitsInvolution(a: nat, b: nat, n: nat)
    requires a < Pow2(n)
    ensures XorBits(a, b, n) < Pow2(n)
    ensures XorBits(XorBits(a, b, n), b, n) == a
  {
    if n > 0 {
      XorBitsInvolution(a / 2, b / 2, n - 1);
      var low, high := (a + b) % 2, XorBits(a / 2, b / 2, n - 1);
      var x := low + 2 * high;
      Halves(low, high);
      LowBitCancels(a, b, x);
      assert XorBits(a, b, n) == x && XorBits(x, b, n) == a % 2 + 2 * XorBits(high, b / 2, n - 1);
    }
  }

  lemma Halves(low: nat, high: nat)
    requires low < 2
    ensures (low + 2 * high) % 2 == low && (low + 2 * high) / 2 == high
  {
  }

  lemma {:induction false} XorBitsInjective(a: nat, b: nat, c: nat, n: nat)
    requires b < Pow2(n) && c < Pow2(n) && XorBits(a, b, n) == XorBits(a, c, n)
    ensures b == c
  {
    if n > 0 {
      var x, y := XorBits(a / 2, b / 2, n - 1), XorBits(a / 2, c / 2, n - 1);
      SameHalves((a + b) % 2, x, (a + c) % 2, y);
      SameLowBit(a, b, c);
      XorBitsInjective(a / 2, b / 2, c / 2, n - 1);
    }
  }

  lemma SameHalves(low: nat, high: nat, otherLow: nat, otherHigh: nat)
    requires low < 2 && otherLow < 2 && low + 2 * high == otherLow + 2 * otherHigh
    ensures low == otherLow && high == otherHigh
  {
  }

  lemma SameLowBit(a: nat, b: nat, c: nat)
    requires (a + b) % 2 == (a + c) % 2
    ensures b % 2 == c % 2
  {
  }

  lemma {:induction false} XorBitsBound(a: nat, b: nat, n: nat)
    ensures XorBits(a, b, n) < Pow2(n)
  {
    if n > 0 {
      XorBitsBound(a / 2, b / 2, n - 1);
    }
  }

  lemma Pow2Eight()
    ensures Pow2(8) == 256
  {
    assert Pow2(4) == 16;
    assert Pow2(8) == 16 * Pow2(4);
  }

  lemma Pow2ThirtyTwo()
    ensures Pow2(26) == 0x400_0000 && Pow2(32) == TWO_32
  {
    assert Pow2(8) == 256 by { Pow2Eight(); }
    assert Pow2(12) == 16 * Pow2(8);
    assert Pow2(16) == 16 * Pow2(12);
    assert Pow2(20) == 16 * Pow2(16);
    assert Pow2(24) == 16 * Pow2(20);
    assert Pow2(28) == 16 * Pow2(24);
    assert Pow2(32) == 16 * Pow2(28);
  }

  function XorByte(a: byte, b: byte): (r: byte)
    ensures r == XorBits(a, b, 8)
  {
    XorBitsBound(a, b, 8);
    Pow2Eight();
    XorBits(a, b, 8)
  }

  /** Byte-wise XOR of two equally long strings. */
  function Xor(a: seq<byte>, b: seq<byte>): (r: seq<byte>)
    requires |a| == |b|
    ensures |r| == |a|
    ensures forall i :: 0 <= i < |a| ==> r[i] == XorByte(a[i], b[i])
  {
    seq(|a|, i requires 0 <= i < |a| => XorByte(a[i], b[i]))
  }

  lemma XorCancel(a: seq<byte>, b: seq<byte>)
    requires |a| == |b|
    ensures Xor(Xor(a, b), b) == a
  {
    Pow2Eight();
    forall i | 0 <= i < |a| ensures Xor(Xor(a, b), b)[i] == a[i] {
      XorBitsInvolution(a[i], b[i], 8);
    }
  }

  /** Two masks undo each other exactly when they are equal. */
  lemma MasksCancel(p: byte, a: byte, b: byte)
    ensures XorByte(XorByte(p, a), b) == p <==> a == b
  {
    hide XorBits;
    Pow2Eight();
    XorBitsInvolution(p, a, 8);
    if XorByte(XorByte(p, a), b) == p {
      XorBitsInjective(XorByte(p, a), a, b, 8);
    }
  }

  function Continuation(s: seq<byte>, k: nat): bool {
    |s| > k && 0x80 <= s[k] <= 0xBF
  }

  /** What `String::from_utf8` accepts. */
  predicate Utf8(s: seq<byte>) {
    if s == [] then true
    else if s[0] < 0x80 then Utf8(s[1..])
    else if 0xC2 <= s[0] <= 0xDF then Continuation(s, 1) && Utf8(s[2..])
    else if 0xE0 <= s[0] <= 0xEF then
      && Continuation(s, 1) && Continuation(s, 2)
      && (s[0] == 0xE0 ==> s[1] >= 0xA0) && (s[0] == 0xED ==> s[1] < 0xA0)
      && Utf8(s[3..])
    else if 0xF0 <= s[0] <= 0xF4 then
      && Continuation(s, 1) && Continuation(s, 2) && Continuation(s, 3)
      && (s[0] == 0xF0 ==> s[1] >= 0x90) && (s[0] == 0xF4 ==> s[1] < 0x90)
      && Utf8(s[4..])
    else false
  }
}
