/** `src/pool.rs`: what a decrypted frame holds. Containers, gzip wrapping and the service
    messages a request may meet before its answer. */
module Frames {
  import opened Wrappers
  import opened Bytes
  import opened Serialize
  import opened Session

  const MSG_CONTAINER: u32 := 0x73f1f8dc
  const PONG: u32 := 0x347773c5
  const MSGS_ACK: u32 := 0x62d6b459
  const NEW_SESSION_CREATED: u32 := 0x9ec20908
  const BAD_MSG_NOTIFICATION: u32 := 0xa7eff811
  const BAD_SERVER_SALT: u32 := 0xedab447b
  const NEW_SERVER_SALT: u32 := 0x1160b89c
  const FUTURE_SALTS: u32 := 0xae500895
  const MSGS_STATE_REQ: u32 := 0xda69fb52
  const MSGS_STATE_INFO: u32 := 0x04deb57d
  const MSGS_RESEND_REQ: u32 := 0x7d861a08
  const MSG_DETAILED_INFO: u32 := 0x276d3ec6
  const MSG_NEW_DETAILED_INFO: u32 := 0x809db6df
  const RPC_RESULT: u32 := 0xf35c6d01
  const RPC_ERROR: u32 := 0x2144ca19
  const RPC_ANSWER_UNKNOWN: u32 := 0x5e2b3f5d
  const RPC_ANSWER_DROPPED_RUNNING: u32 := 0x6d2c0b28
  const RPC_ANSWER_DROPPED: u32 := 0xa7ad2a5f
  const UPDATES: u32 := 0x74ae4240
  const UPDATES_COMBINED: u32 := 0x725b04c3
  const UPDATE_SHORT: u32 := 0x78d4dec1
  const UPDATE_SHORT_SENT_MESSAGE: u32 := 0x9015e101

  /** The constructor of a message of at least four bytes. */
  function CtorOf(item: seq<byte>): u32
    requires |item| >= 4
  {
    Pow256Values();
    FromLe(item[0..4])
  }

  // ---- containers ----

  function AlignUp(len: nat): (r: nat)
    ensures r % 4 == 0 && len <= r < len + 4
  {
    (len + 3) / 4 * 4
  }

  /** Up to `n` messages from `off` on; the walk stops at the first that does not fit. */
  function ItemsFrom(data: seq<byte>, off: nat, n: nat): (items: seq<seq<byte>>)
    ensures |items| <= n
    decreases n
  {
    if n == 0 || off + 16 > |data| then []
    else
      var len := FromLe(data[off + 12..off + 16]);
      if off + 16 + len > |data| then []
      else [data[off + 16..off + 16 + len]] + ItemsFrom(data, off + 16 + AlignUp(len), n - 1)
  }

  /** `container_items`: one item for a bare message, the messages of a container. */
  function Items(data: seq<byte>): (r: Result<seq<seq<byte>>>)
    ensures r.Err? ==> r.error == Serialization && |data| < 8
  {
    if |data| < 4 || CtorOf(data) != MSG_CONTAINER then Ok([data])
    else if |data| < 8 then Err(Serialization)
    else
      Pow256Values();
      var count := I32Of(FromLe(data[4..8]));
      Ok(ItemsFrom(data, 8, if count < 0 then 0 else count))
  }

  method ContainerItems(data: seq<byte>) returns (r: Result<seq<seq<byte>>>)
    ensures r == Items(data)
  {
    if |data| < 4 || CtorOf(data) != MSG_CONTAINER { return Ok([data]); }
    var reader := new TLReader(data);
    var ctor := reader.ReadU32();
    var word :- reader.ReadU32();
    var count := if I32Of(word) < 0 then 0 else I32Of(word);
    var items := WalkItems(data, count);
    r := Ok(items);
  }

  method WalkItems(data: seq<byte>, count: nat) returns (items: seq<seq<byte>>)
    ensures items == ItemsFrom(data, 8, count)
  {
    hide FromLe, ItemsFrom, AlignUp;
    items := [];
    var off := 8;
    for i := 0 to count
      invariant off >= 8
      invariant items + ItemsFrom(data, off, count - i) == ItemsFrom(data, 8, count)
    {
      Walk(data, off, count - i, items);
      if off + 12 > |data| { return; }
      if off + 12 + 4 > |data| { return; }
      var len := FromLe(data[off + 12..off + 16]);
      if off + 16 + len > |data| { return; }
      items := items + [data[off + 16..off + 16 + len]];
      off := off + 16 + AlignUp(len);
    }
    Walk(data, off, 0, items);
  }

  /** One turn of the walk, on top of the items found so far. */
  lemma Walk(data: seq<byte>, off: nat, n: nat, items: seq<seq<byte>>)
    ensures n == 0 || off + 16 > |data| || off + 16 + FromLe(data[off + 12..off + 16]) > |data| ==>
              items + ItemsFrom(data, off, n) == items
    ensures n > 0 && off + 16 <= |data| && off + 16 + FromLe(data[off + 12..off + 16]) <= |data| ==>
              var len := FromLe(data[off + 12..off + 16]);
              items + ItemsFrom(data, off, n)
              == (items + [data[off + 16..off + 16 + len]]) + ItemsFrom(data, off + 16 + AlignUp(len), n - 1)
  {
    hide FromLe, AlignUp;
  }

  datatype Inner = Inner(msgId: u64, seqNo: i32, body: seq<byte>)

  function EncInner(m: Inner): (s: seq<byte>)
    ensures |s| == 16 + AlignUp(|m.body|)
  {
    Le(m.msgId, 8) + Le(U32Of(m.seqNo), 4) + Le(|m.body|, 4) + m.body + Zeros(AlignUp(|m.body|) - |m.body|)
  }

  function EncInners(ms: seq<Inner>): seq<byte> {
    if ms == [] then [] else EncInner(ms[0]) + EncInners(ms[1..])
  }

  /** A container as a server writes it: the constructor, the count, and for each message
      its id, its sequence number, its length and its padded body. */
  function EncContainer(ms: seq<Inner>): seq<byte> {
    Le(MSG_CONTAINER, 4) + Le(U32Of(AsI32(|ms|)), 4) + EncInners(ms)
  }

  function Bodies(ms: seq<Inner>): (r: seq<seq<byte>>)
    ensures |r| == |ms|
  {
    seq(|ms|, i requires 0 <= i < |ms| => ms[i].body)
  }

  lemma InnerParts(m: Inner, data: seq<byte>, off: nat)
    requires At(data, off, EncInner(m)) && |m.body| < TWO_32
    ensures off + 16 + |m.body| <= |data|
    ensures FromLe(data[off + 12..off + 16]) == |m.body| && data[off + 16..off + 16 + |m.body|] == m.body
  {
    var head := Le(m.msgId, 8) + Le(U32Of(m.seqNo), 4);
    var len, tail := Le(|m.body|, 4), Zeros(AlignUp(|m.body|) - |m.body|);
    assert EncInner(m) == head + (len + (m.body + tail));
    AtSplit(data, off, head, len + (m.body + tail));
    AtSplit(data, off + 12, len, m.body + tail);
    AtSplit(data, off + 16, m.body, tail);
    Pow256Values();
    FromLeLe(|m.body|, 4);
  }

  lemma InnersSplit(ms: seq<Inner>)
    requires ms != []
    ensures EncInners(ms) == EncInner(ms[0]) + EncInners(ms[1..])
    ensures |EncInner(ms[0])| == 16 + AlignUp(|ms[0].body|)
    ensures Bodies(ms) == [ms[0].body] + Bodies(ms[1..])
  {
  }

  /** What begins at `off` is no whole message. */
  predicate CutOff(data: seq<byte>, off: nat) {
    off + 16 > |data| || off + 16 + FromLe(data[off + 12..off + 16]) > |data|
  }

  lemma NoneTaken(data: seq<byte>, off: nat, n: nat)
    ensures n == 0 || CutOff(data, off) ==> ItemsFrom(data, off, n) == []
  {
    hide FromLe, AlignUp;
  }

  lemma WalkStep(data: seq<byte>, off: nat, n: nat, body: seq<byte>)
    requires n > 0 && off + 16 + |body| <= |data| && FromLe(data[off + 12..off + 16]) == |body|
    requires data[off + 16..off + 16 + |body|] == body
    ensures ItemsFrom(data, off, n) == [body] + ItemsFrom(data, off + 16 + AlignUp(|body|), n - 1)
  {
    hide FromLe, AlignUp;
  }

  /** The walk over one whole message. */
  lemma OneInner(ms: seq<Inner>, n: nat, data: seq<byte>, off: nat)
    requires ms != [] && n > 0 && At(data, off, EncInners(ms)) && |ms[0].body| < TWO_32
    ensures var next := off + |EncInner(ms[0])|;
            && At(data, next, EncInners(ms[1..]))
            && next + |EncInners(ms[1..])| == off + |EncInners(ms)|
            && ItemsFrom(data, off, n) == [ms[0].body] + ItemsFrom(data, next, n - 1)
            && Bodies(ms) == [ms[0].body] + Bodies(ms[1..])
  {
    hide *;
    InnersSplit(ms);
    AtSplit(data, off, EncInner(ms[0]), EncInners(ms[1..]));
    InnerParts(ms[0], data, off);
    WalkStep(data, off, n, ms[0].body);
  }

  lemma {:induction false} InnersCut(ms: seq<Inner>, n: nat, data: seq<byte>, off: nat)
    requires At(data, off, EncInners(ms)) && forall m :: m in ms ==> |m.body| < TWO_32
    requires n >= |ms| && CutOff(data, off + |EncInners(ms)|)
    ensures ItemsFrom(data, off, n) == Bodies(ms)
    decreases |ms|
  {
    NoBodies();
    hide ItemsFrom, CutOff, At, EncInner, Bodies;
    if ms == [] {
      NoneTaken(data, off, n);
    } else {
      OneInner(ms, n, data, off);
      InnersCut(ms[1..], n - 1, data, off + |EncInner(ms[0])|);
    }
  }

  lemma {:induction false} InnersFirst(ms: seq<Inner>, n: nat, data: seq<byte>, off: nat)
    requires At(data, off, EncInners(ms)) && forall m :: m in ms ==> |m.body| < TWO_32
    requires n <= |ms|
    ensures ItemsFrom(data, off, n) == Bodies(ms[..n])
    decreases n
  {
    NoBodies();
    if n > 0 {
      assert ms[..n][1..] == ms[1..][..n - 1] && ms[..n][0] == ms[0];
      InnersSplit(ms[..n]);
    }
    hide ItemsFrom, At, EncInner, EncInners, Bodies;
    if n == 0 {
      assert ms[..0] == [];
      NoneTaken(data, off, n);
    } else {
      OneInner(ms, n, data, off);
      InnersFirst(ms[1..], n - 1, data, off + |EncInner(ms[0])|);
    }
  }

  lemma NoBodies()
    ensures Bodies([]) == []
  {
  }

  lemma AnyContainer(inners: seq<byte>, count: i32, rest: seq<byte>)
    ensures var data := Le(MSG_CONTAINER, 4) + Le(U32Of(count), 4) + inners + rest;
            && Items(data) == Ok(ItemsFrom(data, 8, if count < 0 then 0 else count))
            && At(data, 8, inners)
            && (CutOff(data, 8 + |inners|) <==> |rest| < 16 || 16 + FromLe(rest[12..16]) > |rest|)
  {
    var ctor, announced := Le(MSG_CONTAINER, 4), Le(U32Of(count), 4);
    var data := ctor + announced + inners + rest;
    var end := 8 + |inners|;
    assert data[0..4] == ctor && data[4..8] == announced && data[8..end] == inners;
    assert |rest| >= 16 ==> data[end + 12..end + 16] == rest[12..16];
    Pow256Values();
    FromLeLe(MSG_CONTAINER, 4);
    FromLeLe(U32Of(count), 4);
    hide ItemsFrom, FromLe, Le;
  }

  /** A container with any announced count: a negative one announces nothing, a smaller one
      hides the messages past it, and a larger one is no failure when what follows the last
      whole message is cut off. */
  lemma ContainerCut(ms: seq<Inner>, count: i32, rest: seq<byte>)
    requires forall m :: m in ms ==> |m.body| < TWO_32
    ensures var items := Items(Le(MSG_CONTAINER, 4) + Le(U32Of(count), 4) + EncInners(ms) + rest);
            && (count < 0 ==> items == Ok([]))
            && (0 <= count <= |ms| ==> items == Ok(Bodies(ms[..count])))
            && (count >= |ms| && (|rest| < 16 || 16 + FromLe(rest[12..16]) > |rest|) ==> items == Ok(Bodies(ms)))
  {
    hide *;
    var data := Le(MSG_CONTAINER, 4) + Le(U32Of(count), 4) + EncInners(ms) + rest;
    AnyContainer(EncInners(ms), count, rest);
    if count < 0 {
      NoneTaken(data, 8, 0);
    } else if count <= |ms| {
      InnersFirst(ms, count, data, 8);
    }
    if count >= |ms| && (|rest| < 16 || 16 + FromLe(rest[12..16]) > |rest|) {
      InnersCut(ms, count, data, 8);
    }
  }

  /** Every container comes apart into the bodies it was made of, whatever follows it. */
  lemma ContainerBack(ms: seq<Inner>, rest: seq<byte>)
    requires |ms| < TWO_31 && forall m :: m in ms ==> |m.body| < TWO_32
    ensures Items(EncContainer(ms) + rest) == Ok(Bodies(ms))
  {
    assert AsI32(|ms|) == |ms| && ms[..|ms|] == ms;
    hide Le, U32Of, AsI32, EncInners, Items, Bodies;
    ContainerCut(ms, |ms|, rest);
  }

  // ---- gzip inside a container ----

  const MAX_NESTING: nat := 4

  /** `unwrap_item_gzip` with `left` unwraps still allowed. */
  function Unwrapped(unpack: Gzip, item: seq<byte>, left: nat): Result<seq<byte>>
    decreases left
  {
    if left == 0 then Err(Protocol)
    else if !LooksPacked(item) then Ok(item)
    else match UnwrapGzip(unpack, item)
      case Err(e) => Err(e)
      case Ok(inner) => Unwrapped(unpack, inner, left - 1)
  }

  method UnwrapItemGzip(unpack: Gzip, item: seq<byte>) returns (r: Result<seq<byte>>)
    ensures r == Unwrapped(unpack, item, 4)
  {
    var cur := item;
    for i := 0 to MAX_NESTING
      invariant Unwrapped(unpack, cur, MAX_NESTING - i) == Unwrapped(unpack, item, MAX_NESTING)
    {
      if |cur| < 4 { return Ok(cur); }
      if CtorOf(cur) != GZIP_PACKED { return Ok(cur); }
      cur :- Unzipped(unpack, cur);
    }
    r := Err(Protocol);
  }

  method Unzipped(unpack: Gzip, data: seq<byte>) returns (r: Result<seq<byte>>)
    ensures r == UnwrapGzip(unpack, data)
  {
    r := UnwrapGzip(unpack, data);
  }

  function PackedOnce(packed: seq<byte>): seq<byte> {
    Le(GZIP_PACKED, 4) + EncBytes(packed, 4)
  }

  /** `wraps` is a way of packing `inner` layer by layer into `item`. */
  predicate PackedIn(unpack: Gzip, layers: seq<seq<byte>>, item: seq<byte>, inner: seq<byte>)
    decreases |layers|
  {
    if layers == [] then item == inner
    else
      item == PackedOnce(layers[0]) && |layers[0]| < 0x100_0000
      && unpack(layers[0]).Some? && PackedIn(unpack, layers[1..], unpack(layers[0]).value, inner)
  }

  lemma PackedOnceBack(unpack: Gzip, packed: seq<byte>)
    requires |packed| < 0x100_0000 && unpack(packed).Some?
    ensures LooksPacked(PackedOnce(packed)) && UnwrapGzip(unpack, PackedOnce(packed)) == Ok(unpack(packed).value)
  {
    var data := PackedOnce(packed);
    assert data[0..4] == Le(GZIP_PACKED, 4) && data[4..4 + |EncBytes(packed, 4)|] == EncBytes(packed, 4);
    Pow256Values();
    FromLeLe(GZIP_PACKED, 4);
    ReadBackBytes(packed, 4, data, 4);
  }

  /** An item packed `k` times comes back exactly when `k` is below the limit: the last
      allowed unwrap is never looked at again. */
  lemma {:induction false} NestingLimit(unpack: Gzip, layers: seq<seq<byte>>, item: seq<byte>, inner: seq<byte>,
                          left: nat)
    requires PackedIn(unpack, layers, item, inner) && !LooksPacked(inner)
    ensures Unwrapped(unpack, item, left) == if |layers| < left then Ok(inner) else Err(Protocol)
    decreases |layers|
  {
    if layers != [] && left > 0 {
      PackedOnceBack(unpack, layers[0]);
      NestingLimit(unpack, layers[1..], unpack(layers[0]).value, inner, left - 1);
    }
  }

  /** Every item of a frame, unwrapped; the first failure ends the request. */
  function UnwrappedAll(unpack: Gzip, items: seq<seq<byte>>): (r: Result<seq<seq<byte>>>)
    ensures r.Ok? ==> |r.value| == |items|
  {
    if items == [] then Ok([])
    else
      var rest := UnwrappedAll(unpack, items[..|items| - 1]);
      match rest
      case Err(e) => Err(e)
      case Ok(before) =>
        match Unwrapped(unpack, items[|items| - 1], MAX_NESTING)
        case Err(e) => Err(e)
        case Ok(last) => Ok(before + [last])
  }

  /** A frame's plaintext as the list of messages the request loop looks at. */
  function PlainItems(unpack: Gzip, plaintext: seq<byte>): Result<seq<seq<byte>>> {
    var body :- UnwrapGzip(unpack, plaintext);
    var items :- Items(body);
    UnwrappedAll(unpack, items)
  }

  method SplitFrame(unpack: Gzip, plaintext: seq<byte>) returns (r: Result<seq<seq<byte>>>)
    ensures r == PlainItems(unpack, plaintext)
  {
    var body :- Unzipped(unpack, plaintext);
    var items :- ContainerItems(body);
    var plain: seq<seq<byte>> := [];
    for i := 0 to |items|
      invariant UnwrappedAll(unpack, items[..i]) == Ok(plain)
    {
      assert items[..i + 1][..i] == items[..i];
      var one := UnwrapItemGzip(unpack, items[i]);
      if one.Err? {
        FailsOn(unpack, items, i + 1, one.error);
        return Err(one.error);
      }
      plain := plain + [one.value];
    }
    assert items[..|items|] == items;
    r := Ok(plain);
  }

  lemma {:induction false} FailsOn(unpack: Gzip, items: seq<seq<byte>>, n: nat, e: Error)
    requires n <= |items| && UnwrappedAll(unpack, items[..n]) == Err(e)
    ensures UnwrappedAll(unpack, items) == Err(e)
    decreases |items|
  {
    if n < |items| {
      var head := items[..|items| - 1];
      assert head[..n] == items[..n];
      FailsOn(unpack, head, n, e);
    } else {
      assert items[..n] == items;
    }
  }

  // ---- service messages ----

  /** The salt a service message announces (`adopt_service_state`). */
  function AnnouncedSalt(ctor: u32, item: seq<byte>): Option<u64> {
    Pow256Values();
    if ctor == BAD_SERVER_SALT || ctor == NEW_SESSION_CREATED then
      if |item| < 28 then None else Some(FromLe(item[20..28]))
    else if ctor == NEW_SERVER_SALT then
      if |item| < 12 then None else Some(FromLe(item[4..12]))
    else None
  }

  /** The salt a message announces, if any. */
  function SaltIn(item: seq<byte>): Option<u64> {
    if |item| < 4 then None else AnnouncedSalt(CtorOf(item), item)
  }

  /** `salt` is the last one announced, or the one before when none is. */
  ghost predicate LastSalt(items: seq<seq<byte>>, before: u64, salt: u64) {
    || (salt == before && forall j :: 0 <= j < |items| ==> SaltIn(items[j]) == None)
    || exists i :: LastSaltAt(items, salt, i)
  }

  predicate LastSaltAt(items: seq<seq<byte>>, salt: u64, i: int) {
    && 0 <= i < |items| && SaltIn(items[i]) == Some(salt)
    && forall j :: i < j < |items| ==> SaltIn(items[j]) == None
  }

  lemma LastSaltFirst(item: seq<byte>, items: seq<seq<byte>>, before: u64, salt: u64)
    requires LastSalt(items, if SaltIn(item).Some? then SaltIn(item).value else before, salt)
    ensures LastSalt([item] + items, before, salt)
  {
    hide SaltIn;
    var all := [item] + items;
    if i :| LastSaltAt(items, salt, i) {
      assert LastSaltAt(all, salt, i + 1);
    } else if SaltIn(item).Some? {
      assert LastSaltAt(all, salt, 0);
    }
  }

  lemma LastSaltNext(items: seq<seq<byte>>, item: seq<byte>, before: u64, salt: u64)
    requires LastSalt(items, before, salt)
    ensures LastSalt(items + [item], before, if SaltIn(item).Some? then SaltIn(item).value else salt)
  {
    hide SaltIn;
    var all := items + [item];
    if SaltIn(item).Some? {
      assert LastSaltAt(all, SaltIn(item).value, |items|);
    } else if i :| LastSaltAt(items, salt, i) {
      assert LastSaltAt(all, salt, i);
    }
  }

  /** `parse_bad_msg_notification`: the id complained about and the code. */
  function BadMsg(item: seq<byte>): Result<(u64, i32)> {
    match GetU32(item, 0)
    case Fail(e, _) => Err(e)
    case Got(ctor, p) =>
      if ctor != BAD_MSG_NOTIFICATION then Err(UnexpectedResponse)
      else match GetU64(item, p)
        case Fail(e, _) => Err(e)
        case Got(id, q) =>
          match GetU32(item, q)
          case Fail(e, _) => Err(e)
          case Got(_, s) =>
            match GetU32(item, s)
            case Fail(e, _) => Err(e)
            case Got(code, _) => Ok((id, I32Of(code)))
  }

  /** `classify_bad_msg`. */
  function ClassifyBadMsg(code: i32): Error {
    if code == 65 then NoAuthKey else BadMessage(code)
  }

  /** What an `rpc_result` carries. */
  datatype Body = Answer(bytes: seq<byte>) | RpcFailed(code: i32, message: seq<byte>) | Broken(error: Error)

  /** `parse_rpc_result_body` on an item whose constructor and message id are in place. */
  function ParseBody(unpack: Gzip, item: seq<byte>): Body
    requires |item| >= 12
  {
    match UnwrapGzip(unpack, item[12..])
    case Err(e) => Broken(e)
    case Ok(inner) =>
      if |inner| < 4 then Broken(Protocol)
      else
        var ctor := CtorOf(inner);
        if ctor == RPC_ERROR then ParseRpcError(inner)
        else if ctor in {RPC_ANSWER_UNKNOWN, RPC_ANSWER_DROPPED, RPC_ANSWER_DROPPED_RUNNING} then Broken(Rpc)
        else if ctor == BAD_MSG_NOTIFICATION then
          match BadMsg(inner)
          case Err(e) => Broken(e)
          case Ok(bad) => Broken(ClassifyBadMsg(bad.1))
        else Answer(inner)
  }

  function ParseRpcError(inner: seq<byte>): Body {
    match GetU32(inner, 4)
    case Fail(e, _) => Broken(e)
    case Got(code, p) =>
      match GetBytes(inner, p)
      case Fail(e, _) => Broken(e)
      case Got(message, _) => if Utf8(message) then RpcFailed(I32Of(code), message) else Broken(Protocol)
  }

  /** The request an `rpc_result` answers. */
  function AnsweredId(item: seq<byte>): u64
    requires |item| >= 12
  {
    Pow256Values();
    FromLe(item[4..12])
  }

  // ---- picking one message of a container ----

  predicate Noise(ctor: u32) {
    ctor == MSGS_ACK || ctor == PONG || ctor == NEW_SESSION_CREATED || ctor == NEW_SERVER_SALT
  }

  /** The first item that satisfies the choice, if any. */
  function FirstResult(items: seq<seq<byte>>): Option<seq<byte>>
    requires forall i :: 0 <= i < |items| ==> |items[i]| >= 4
  {
    if items == [] then None
    else if CtorOf(items[0]) == RPC_RESULT then Some(items[0])
    else FirstResult(items[1..])
  }

  function FirstSignal(items: seq<seq<byte>>): Option<seq<byte>>
    requires forall i :: 0 <= i < |items| ==> |items[i]| >= 4
  {
    if items == [] then None
    else if !Noise(CtorOf(items[0])) then Some(items[0])
    else FirstSignal(items[1..])
  }

  predicate AllLong(items: seq<seq<byte>>) {
    forall i :: 0 <= i < |items| ==> |items[i]| >= 4
  }

  /** `choose_container_item`: the first `rpc_result`, else the first message that is not
      service noise. An item of fewer than four bytes panics the slice. */
  method ChooseContainerItem(data: seq<byte>) returns (r: Result<Option<seq<byte>>>)
    ensures |data| < 4 || CtorOf(data) != MSG_CONTAINER ==> r == Ok(Some(data))
    ensures |data| >= 4 && CtorOf(data) == MSG_CONTAINER ==>
              match Items(data)
              case Err(e) => r == Err(e)
              case Ok(items) =>
                if AllLong(items) then
                  r == Ok(if FirstResult(items).Some? then FirstResult(items) else FirstSignal(items))
                else r == Err(Panic)
  {
    if |data| < 4 || CtorOf(data) != MSG_CONTAINER { return Ok(Some(data)); }
    var items :- ContainerItems(data);
    var first: Option<seq<byte>> := None;
    var rpc: Option<seq<byte>> := None;
    assert items[0..] == items;
    for i := 0 to |items|
      invariant AllLong(items[..i])
      invariant AllLong(items) ==>
        FirstResult(items) == (if rpc.Some? then rpc else FirstResult(items[i..]))
        && FirstSignal(items) == (if first.Some? then first else FirstSignal(items[i..]))
    {
      var item := items[i];
      if |item| < 4 { return Err(Panic); }
      var ctor := CtorOf(item);
      if ctor == RPC_RESULT && rpc.None? {
        rpc := Some(item);
      }
      if first.None? && !Noise(ctor) {
        first := Some(item);
      }
      assert items[i..][1..] == items[i + 1..];
    }
    assert items[..|items|] == items;
    r := Ok(if rpc.Some? then rpc else first);
  }
}
