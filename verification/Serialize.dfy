/** `src/serialize.rs`: the TL writer, the TL reader and the law that ties them. */
module Serialize {
  import opened Wrappers
  import opened Bytes

  const VECTOR: u32 := 0x1cb5c415
  const BOOL_TRUE: u32 := 0x997275b5
  const BOOL_FALSE: u32 := 0xbc799737

  // ---- what one write appends ----

  function PadLen(n: nat): (p: nat)
    ensures p < 4 && (n + p) % 4 == 0
  {
    (4 - n % 4) % 4
  }

  /** The length prefix; only 24 bits of a long length are kept. */
  function LenPrefix(len: nat): seq<byte> {
    if len <= 252 then [len] else [254] + Le(len, 3)
  }

  /** A TL string written when the buffer already holds `offset` bytes: the padding
      depends on the absolute position. */
  function EncBytes(d: seq<byte>, offset: nat): (s: seq<byte>)
    ensures (offset + |s|) % 4 == 0
  {
    var body := LenPrefix(|d|) + d;
    body + Zeros(PadLen(offset + |body|))
  }

  /** A short string is led by its length, a longer one by 254 and three digits; zeros fill
      the last word. */
  lemma EncBytesMeans(d: seq<byte>, offset: nat)
    ensures var s, n := EncBytes(d, offset), |d|;
            var head := if n <= 252 then [n] else [254, n % 256, n / 256 % 256, n / 65536 % 256];
            && |head| + n <= |s| < |head| + n + 4 && (offset + |s|) % 4 == 0
            && s[..|head|] == head && s[|head|..|head| + n] == d
            && forall i :: |head| + n <= i < |s| ==> s[i] == 0
  {
    if |d| > 252 {
      ThreeBytes(|d|);
    }
  }

  function EncU32s(items: seq<u32>): (s: seq<byte>)
    ensures |s| == 4 * |items|
  {
    if items == [] then [] else Le(items[0], 4) + EncU32s(items[1..])
  }

  function EncU64s(items: seq<u64>): (s: seq<byte>)
    ensures |s| == 8 * |items|
  {
    if items == [] then [] else Le(items[0], 8) + EncU64s(items[1..])
  }

  /** `vector#1cb5c415 count`, the count cast with `as i32`. */
  function EncVectorHeader(count: nat): (s: seq<byte>)
    ensures |s| == 8
  {
    Le(VECTOR, 4) + Le(U32Of(AsI32(count)), 4)
  }

  class TLWriter {
    var buf: seq<byte>

    constructor ()
      ensures buf == []
    {
      buf := [];
    }

    method WriteU32(v: u32)
      modifies this
      ensures buf == old(buf) + Le(v, 4)
    {
      buf := buf + Le(v, 4);
    }

    method WriteI32(v: i32)
      modifies this
      ensures buf == old(buf) + Le(U32Of(v), 4)
    {
      buf := buf + Le(U32Of(v), 4);
    }

    method WriteU64(v: u64)
      modifies this
      ensures buf == old(buf) + Le(v, 8)
    {
      buf := buf + Le(v, 8);
    }

    method WriteI64(v: i64)
      modifies this
      ensures buf == old(buf) + Le(U64Of(v), 8)
    {
      buf := buf + Le(U64Of(v), 8);
    }

    method WriteRawBytes(d: seq<byte>)
      modifies this
      ensures buf == old(buf) + d
    {
      buf := buf + d;
    }

    method WriteBytes(d: seq<byte>)
      modifies this
      ensures buf == old(buf) + EncBytes(d, |old(buf)|)
    {
      var len := |d|;
      if len <= 252 {
        buf := buf + [len];
      } else {
        buf := buf + [254];
        buf := buf + [len % 256];
        buf := buf + [len / 256 % 256];
        buf := buf + [len / 65536 % 256];
      }
      assert buf == old(buf) + LenPrefix(len) by {
        if len > 252 {
          ThreeBytes(len);
        }
      }
      buf := buf + d;
      var pad := 4 - |buf| % 4;
      if pad != 4 {
        buf := buf + Zeros(pad);
      }
    }

    method WriteVectorLong(items: seq<i64>)
      modifies this
      ensures buf == old(buf) + EncVectorHeader(|items|) + EncU64s(Patterns(items))
    {
      WriteU32(VECTOR);
      WriteI32(AsI32(|items|));
      ghost var start := buf;
      assert start == old(buf) + EncVectorHeader(|items|);
      for i := 0 to |items|
        invariant buf + EncU64s(Patterns(items[i..])) == start + EncU64s(Patterns(items))
      {
        assert Patterns(items[i..])[1..] == Patterns(items[i + 1..]);
        WriteI64(items[i]);
      }
    }
  }

  function Patterns(items: seq<i64>): (s: seq<u64>)
    ensures |s| == |items|
  {
    seq(|items|, i requires 0 <= i < |items| => U64Of(items[i]))
  }

  // ---- what one read returns ----

  /** The outcome of a read: a value and the new cursor, or an error and where the
      cursor was left. */
  datatype Step<+T> = Got(value: T, next: nat) | Fail(error: Error, at: nat)

  /** `ensure`: the subtraction `data.len() - pos` underflows when the cursor is past the end. */
  function Ensure(data: seq<byte>, pos: nat, n: nat): Option<Error> {
    if pos > |data| then Some(Panic)
    else if |data| - pos < n then Some(Serialization)
    else None
  }

  function GetLe(data: seq<byte>, pos: nat, n: nat): (r: Step<nat>)
    ensures r.Got? ==> r.next == pos + n <= |data| && r.value == FromLe(data[pos..pos + n])
  {
    match Ensure(data, pos, n)
    case Some(e) => Fail(e, pos)
    case None => Got(FromLe(data[pos..pos + n]), pos + n)
  }

  function GetU32(data: seq<byte>, pos: nat): (r: Step<u32>)
    ensures r.Got? ==> r.next == pos + 4 <= |data|
  {
    Pow256Values();
    match GetLe(data, pos, 4)
    case Got(v, p) => Got(v, p)
    case Fail(e, p) => Fail(e, p)
  }

  function GetU64(data: seq<byte>, pos: nat): (r: Step<u64>)
    ensures r.Got? ==> r.next == pos + 8 <= |data|
  {
    Pow256Values();
    match GetLe(data, pos, 8)
    case Got(v, p) => Got(v, p)
    case Fail(e, p) => Fail(e, p)
  }

  function GetRaw(data: seq<byte>, pos: nat, n: nat): (r: Step<seq<byte>>)
    ensures r.Got? ==> r.next == pos + n <= |data| && |r.value| == n
  {
    match Ensure(data, pos, n)
    case Some(e) => Fail(e, pos)
    case None => Got(data[pos..pos + n], pos + n)
  }

  function GetBytes(data: seq<byte>, pos: nat): (r: Step<seq<byte>>)
    ensures r.Got? ==> pos < r.next && r.next % 4 == 0
  {
    match Ensure(data, pos, 1)
    case Some(e) => Fail(e, pos)
    case None =>
      var first := data[pos];
      if first <= 252 then GetBody(data, pos + 1, first)
      else if first == 254 then
        match Ensure(data, pos, 4)
        case Some(e) => Fail(e, pos)
        case None =>
          GetBody(data, pos + 4, FromLe(data[pos + 1..pos + 4]))
      else Fail(Serialization, pos)
  }

  function GetBody(data: seq<byte>, pos: nat, len: nat): (r: Step<seq<byte>>)
    ensures r.Got? ==> |r.value| == len && pos <= r.next && r.next % 4 == 0
  {
    match Ensure(data, pos, len)
    case Some(e) => Fail(e, pos)
    case None => Got(data[pos..pos + len], pos + len + PadLen(pos + len))
  }

  function GetVectorHeader(data: seq<byte>, pos: nat): (r: Step<nat>)
    ensures r.Got? ==> r.next == pos + 8 <= |data| && r.value < TWO_31
  {
    match GetU32(data, pos)
    case Fail(e, p) => Fail(e, p)
    case Got(ctor, p) =>
      if ctor != VECTOR then Fail(Serialization, p)
      else match GetU32(data, p)
        case Fail(e, q) => Fail(e, q)
        case Got(count, q) => if I32Of(count) < 0 then Fail(Serialization, q) else Got(I32Of(count), q)
  }

  class TLReader {
    const data: seq<byte>
    var pos: nat

    constructor (data: seq<byte>)
      ensures this.data == data && pos == 0
    {
      this.data := data;
      pos := 0;
    }

    /** A method result and the new cursor, as one read outcome. */
    ghost predicate Did<T>(step: Step<T>, r: Result<T>)
      reads this
    {
      match step
      case Got(v, p) => r == Ok(v) && pos == p
      case Fail(e, p) => r == Err(e) && pos == p
    }

    method EnsureLeft(n: nat) returns (r: Option<Error>)
      ensures r == Ensure(data, pos, n)
    {
      if pos > |data| {
        r := Some(Panic);
      } else if |data| - pos < n {
        r := Some(Serialization);
      } else {
        r := None;
      }
    }

    method ReadU32() returns (r: Result<u32>)
      modifies this
      ensures Did(GetU32(data, old(pos)), r)
    {
      var bad := EnsureLeft(4);
      if bad.Some? { return Err(bad.value); }
      Pow256Values();
      r := Ok(FromLe(data[pos..pos + 4]));
      pos := pos + 4;
    }

    method ReadU64() returns (r: Result<u64>)
      modifies this
      ensures Did(GetU64(data, old(pos)), r)
    {
      var bad := EnsureLeft(8);
      if bad.Some? { return Err(bad.value); }
      Pow256Values();
      r := Ok(FromLe(data[pos..pos + 8]));
      pos := pos + 8;
    }

    method ReadRaw(n: nat) returns (r: Result<seq<byte>>)
      modifies this
      ensures Did(GetRaw(data, old(pos), n), r)
    {
      var bad := EnsureLeft(n);
      if bad.Some? { return Err(bad.value); }
      r := Ok(data[pos..pos + n]);
      pos := pos + n;
    }

    method ReadBytes() returns (r: Result<seq<byte>>)
      modifies this
      ensures Did(GetBytes(data, old(pos)), r)
    {
      hide FromLe, Pow256;
      var bad := EnsureLeft(1);
      if bad.Some? { return Err(bad.value); }
      var first := data[pos];
      var len, skip;
      if first <= 252 {
        len, skip := first, 1;
      } else if first == 254 {
        bad := EnsureLeft(4);
        if bad.Some? { return Err(bad.value); }
        len, skip := FromLe(data[pos + 1..pos + 4]), 4;
      } else {
        return Err(Serialization);
      }
      pos := pos + skip;
      bad := EnsureLeft(len);
      if bad.Some? { return Err(bad.value); }
      r := Ok(data[pos..pos + len]);
      pos := pos + len;
      var pad := (4 - pos % 4) % 4;
      pos := pos + pad;
    }

    method ReadVectorHeader() returns (r: Result<nat>)
      modifies this
      ensures Did(GetVectorHeader(data, old(pos)), r)
    {
      var ctor := ReadU32();
      if ctor.Err? { return Err(ctor.error); }
      if ctor.value != VECTOR { return Err(Serialization); }
      var count := ReadU32();
      if count.Err? { return Err(count.error); }
      if I32Of(count.value) < 0 { return Err(Serialization); }
      r := Ok(I32Of(count.value));
    }
  }

  // ---- round trips ----

  /** `x` stands in `data` at `pos`. */
  ghost predicate At(data: seq<byte>, pos: nat, x: seq<byte>) {
    pos + |x| <= |data| && data[pos..pos + |x|] == x
  }

  lemma AtSplit(data: seq<byte>, pos: nat, x: seq<byte>, y: seq<byte>)
    ensures At(data, pos, x + y) <==> At(data, pos, x) && At(data, pos + |x|, y)
  {
    var n := |x| + |y|;
    if At(data, pos, x + y) {
      assert data[pos..pos + |x|] == data[pos..pos + n][..|x|] == x;
      assert data[pos + |x|..pos + n] == data[pos..pos + n][|x|..] == y;
    }
    if At(data, pos, x) && At(data, pos + |x|, y) {
      assert data[pos..pos + n] == data[pos..pos + |x|] + data[pos + |x|..pos + n];
    }
  }

  /** The shape of most handshake messages: a constructor, two nonces and the rest. */
  lemma HeadParts(data: seq<byte>, ctor: seq<byte>, nonce: seq<byte>, server: seq<byte>, rest: seq<byte>)
    requires |ctor| == 4 && |nonce| == |server| == 16 && data == ctor + nonce + server + rest
    ensures At(data, 0, ctor) && At(data, 4, nonce) && At(data, 20, server) && At(data, 36, rest)
  {
  }

  lemma ReadBackU32(data: seq<byte>, pos: nat, v: u32)
    requires At(data, pos, Le(v, 4))
    ensures GetU32(data, pos) == Got(v, pos + 4)
  {
    Pow256Values();
    FromLeLe(v, 4);
  }

  lemma ReadBackU64(data: seq<byte>, pos: nat, v: u64)
    requires At(data, pos, Le(v, 8))
    ensures GetU64(data, pos) == Got(v, pos + 8)
  {
    Pow256Values();
    FromLeLe(v, 8);
  }

  lemma ReadBackRaw(data: seq<byte>, pos: nat, x: seq<byte>)
    requires At(data, pos, x)
    ensures GetRaw(data, pos, |x|) == Got(x, pos + |x|)
  {
  }

  /** The header survives exactly when the count fits a non-negative `i32`. */
  lemma ReadBackVectorHeader(data: seq<byte>, pos: nat, count: nat)
    requires At(data, pos, EncVectorHeader(count))
    ensures count < TWO_31 ==> GetVectorHeader(data, pos) == Got(count, pos + 8)
    ensures count >= TWO_31 && GetVectorHeader(data, pos).Got? ==> GetVectorHeader(data, pos).value != count
  {
    AtSplit(data, pos, Le(VECTOR, 4), Le(U32Of(AsI32(count)), 4));
    ReadBackU32(data, pos, VECTOR);
    ReadBackU32(data, pos + 4, U32Of(AsI32(count)));
  }

  lemma ThreeBytes(len: nat)
    ensures Le(len, 3) == [len % 256, len / 256 % 256, len / 65536 % 256]
  {
    assert Le(len / 65536, 1) == [len / 65536 % 256] + Le(len / 65536 / 256, 0);
    assert len / 256 / 256 == len / 65536;
    assert Le(len / 256, 2) == [len / 256 % 256] + Le(len / 65536, 1);
  }

  /** The prefix leads the reader to the payload, with the length modulo 2^24. */
  lemma ReadPrefix(data: seq<byte>, pos: nat, len: nat)
    requires At(data, pos, LenPrefix(len))
    ensures len < 0x100_0000 ==>
              GetBytes(data, pos) == GetBody(data, pos + |LenPrefix(len)|, len)
    ensures len >= 0x100_0000 && GetBytes(data, pos).Got? ==> |GetBytes(data, pos).value| != len
  {
    var prefix := LenPrefix(len);
    var p := pos + |prefix|;
    assert data[pos] == data[pos..p][0] == prefix[0];
    if len > 252 {
      assert data[pos + 1..p] == data[pos..p][1..] == Le(len, 3);
      Pow256Values();
      if len < 0x100_0000 {
        FromLeLe(len, 3);
      }
    }
  }

  lemma ReadBody(data: seq<byte>, pos: nat, d: seq<byte>, offset: nat)
    requires pos % 4 == offset % 4
    requires At(data, pos, d)
    ensures GetBody(data, pos, |d|) == Got(d, pos + |d| + PadLen(offset + |d|))
  {
    SameAlignment(pos, offset, |d|);
  }

  /** A TL string written at `offset` and read where the alignment agrees, followed by
      any bytes, comes back whole exactly when it is shorter than 2^24 bytes. */
  lemma ReadBackBytes(d: seq<byte>, offset: nat, data: seq<byte>, pos: nat)
    requires pos % 4 == offset % 4
    requires At(data, pos, EncBytes(d, offset))
    ensures |d| < 0x100_0000 ==> GetBytes(data, pos) == Got(d, pos + |EncBytes(d, offset)|)
    ensures |d| >= 0x100_0000 && GetBytes(data, pos).Got? ==> GetBytes(data, pos).value != d
  {
    hide *;
    var prefix := LenPrefix(|d|);
    EncodedParts(d, offset, data, pos);
    ReadPrefix(data, pos, |d|);
    if |d| < 0x100_0000 {
      SameAlignment(pos, offset, |prefix|);
      ReadBody(data, pos + |prefix|, d, offset + |prefix|);
      assert GetBytes(data, pos) == GetBody(data, pos + |prefix|, |d|);
    }
  }

  lemma SameAlignment(m: nat, n: nat, k: nat)
    requires m % 4 == n % 4
    ensures (m + k) % 4 == (n + k) % 4
  {
  }

  lemma EncodedParts(d: seq<byte>, offset: nat, data: seq<byte>, pos: nat)
    requires At(data, pos, EncBytes(d, offset))
    ensures At(data, pos, LenPrefix(|d|)) && At(data, pos + |LenPrefix(|d|)|, d)
    ensures |EncBytes(d, offset)| == |LenPrefix(|d|)| + |d| + PadLen(offset + |LenPrefix(|d|)| + |d|)
  {
    var prefix := LenPrefix(|d|);
    var pad := Zeros(PadLen(offset + |prefix + d|));
    assert EncBytes(d, offset) == prefix + d + pad;
    AtSplit(data, pos, prefix + d, pad);
    AtSplit(data, pos, prefix, d);
  }
}
