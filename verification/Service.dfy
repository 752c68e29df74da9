/** What the service messages of a frame mean, told by their bytes: each message is laid out as
    the server writes it, whatever follows, and the parsers find its parts. */
module Service {
  import opened Wrappers
  import opened Bytes
  import opened Serialize
  import opened Session
  import opened Frames

  /** A message that begins with a constructor and an id. */
  lemma Head(ctor: u32, id: u64, rest: seq<byte>)
    ensures var item := Le(ctor, 4) + (Le(id, 8) + rest);
            |item| == 12 + |rest| && CtorOf(item) == ctor && AnsweredId(item) == id && item[12..] == rest
            && GetU64(item, 4) == Got(id, 12)
  {
    hide FromLe, Le;
    var item := Le(ctor, 4) + (Le(id, 8) + rest);
    assert item[0..4] == Le(ctor, 4) && item[4..12] == Le(id, 8);
    Pow256Values();
    FromLeLe(ctor, 4);
    FromLeLe(id, 8);
  }

  // ---- salts ----

  function BadServerSalt(id: u64, seqNo: u32, code: u32, salt: u64, rest: seq<byte>): seq<byte> {
    Le(BAD_SERVER_SALT, 4) + (Le(id, 8) + (Le(seqNo, 4) + (Le(code, 4) + (Le(salt, 8) + rest))))
  }

  function NewSession(firstId: u64, uniqueId: u64, salt: u64, rest: seq<byte>): seq<byte> {
    Le(NEW_SESSION_CREATED, 4) + (Le(firstId, 8) + (Le(uniqueId, 8) + (Le(salt, 8) + rest)))
  }

  function NewServerSalt(salt: u64, rest: seq<byte>): seq<byte> {
    Le(NEW_SERVER_SALT, 4) + (Le(salt, 8) + rest)
  }

  /** A number of eight bytes inside a message. */
  lemma LongAt(item: seq<byte>, at: nat, v: u64)
    requires At(item, at, Le(v, 8))
    ensures FromLe(item[at..at + 8]) == v
  {
    Pow256Values();
    FromLeLe(v, 8);
  }

  lemma BadServerSaltMeans(id: u64, seqNo: u32, code: u32, salt: u64, rest: seq<byte>)
    ensures var item := BadServerSalt(id, seqNo, code, salt, rest);
            |item| >= 28 && CtorOf(item) == BAD_SERVER_SALT && AnsweredId(item) == id && SaltIn(item) == Some(salt)
  {
    hide Le, FromLe;
    var item := BadServerSalt(id, seqNo, code, salt, rest);
    Head(BAD_SERVER_SALT, id, Le(seqNo, 4) + (Le(code, 4) + (Le(salt, 8) + rest)));
    assert item[20..28] == Le(salt, 8);
    LongAt(item, 20, salt);
  }

  lemma NewSessionMeans(firstId: u64, uniqueId: u64, salt: u64, rest: seq<byte>)
    ensures var item := NewSession(firstId, uniqueId, salt, rest);
            |item| >= 28 && CtorOf(item) == NEW_SESSION_CREATED && SaltIn(item) == Some(salt)
  {
    hide Le, FromLe;
    var item := NewSession(firstId, uniqueId, salt, rest);
    Head(NEW_SESSION_CREATED, firstId, Le(uniqueId, 8) + (Le(salt, 8) + rest));
    assert item[20..28] == Le(salt, 8);
    LongAt(item, 20, salt);
  }

  lemma NewServerSaltMeans(salt: u64, rest: seq<byte>)
    ensures var item := NewServerSalt(salt, rest);
            |item| >= 12 && CtorOf(item) == NEW_SERVER_SALT && SaltIn(item) == Some(salt)
  {
    hide Le, FromLe;
    Head(NEW_SERVER_SALT, salt, rest);
    assert NewServerSalt(salt, rest)[4..12] == Le(salt, 8);
    LongAt(NewServerSalt(salt, rest), 4, salt);
  }

  /** Nothing else announces a salt, and no message cut short does. */
  lemma OnlySaltMessages(item: seq<byte>)
    requires SaltIn(item).Some?
    ensures |item| >= 12
    ensures || (|item| >= 28 && CtorOf(item) in {BAD_SERVER_SALT, NEW_SESSION_CREATED})
            || CtorOf(item) == NEW_SERVER_SALT
  {
  }

  // ---- rejections ----

  function BadMsgNotification(id: u64, seqNo: u32, code: i32, rest: seq<byte>): seq<byte> {
    Le(BAD_MSG_NOTIFICATION, 4) + (Le(id, 8) + (Le(seqNo, 4) + (Le(U32Of(code), 4) + rest)))
  }

  lemma BadMsgMeans(id: u64, seqNo: u32, code: i32, rest: seq<byte>)
    ensures var item := BadMsgNotification(id, seqNo, code, rest);
            |item| >= 20 && CtorOf(item) == BAD_MSG_NOTIFICATION && BadMsg(item) == Ok((id, code))
  {
    hide Le, FromLe;
    var item := BadMsgNotification(id, seqNo, code, rest);
    Head(BAD_MSG_NOTIFICATION, id, Le(seqNo, 4) + (Le(U32Of(code), 4) + rest));
    assert item[0..4] == Le(BAD_MSG_NOTIFICATION, 4);
    assert item[12..16] == Le(seqNo, 4) && item[16..20] == Le(U32Of(code), 4);
    ReadBackU32(item, 0, BAD_MSG_NOTIFICATION);
    ReadBackU32(item, 12, seqNo);
    ReadBackU32(item, 16, U32Of(code));
    SignBack(code);
  }

  lemma SignBack(v: i32)
    ensures I32Of(U32Of(v)) == v
  {
  }

  // ---- results ----

  function RpcResult(id: u64, inner: seq<byte>): seq<byte> {
    Le(RPC_RESULT, 4) + (Le(id, 8) + inner)
  }

  lemma RpcResultParts(id: u64, inner: seq<byte>)
    ensures var item := RpcResult(id, inner);
            |item| == 12 + |inner| && CtorOf(item) == RPC_RESULT && AnsweredId(item) == id && item[12..] == inner
  {
    Head(RPC_RESULT, id, inner);
  }

  const DROPPED: set<u32> := {RPC_ANSWER_UNKNOWN, RPC_ANSWER_DROPPED, RPC_ANSWER_DROPPED_RUNNING}

  /** A payload that is an answer: no error, no dropped answer, no rejection. */
  predicate Payload(inner: seq<byte>) {
    |inner| >= 4 && CtorOf(inner) != RPC_ERROR && CtorOf(inner) != BAD_MSG_NOTIFICATION && CtorOf(inner) !in DROPPED
  }

  /** Any other payload is handed back as it is, or unpacked once when it is packed. */
  lemma AnswerMeans(unpack: Gzip, id: u64, inner: seq<byte>)
    requires Payload(inner) && CtorOf(inner) != GZIP_PACKED
    ensures ParseBody(unpack, RpcResult(id, inner)) == Answer(inner)
  {
    RpcResultParts(id, inner);
    hide RpcResult, FromLe;
  }

  lemma PackedAnswerMeans(unpack: Gzip, id: u64, packed: seq<byte>, inner: seq<byte>)
    requires |packed| < 0x100_0000 && unpack(packed) == Some(inner) && Payload(inner)
    ensures ParseBody(unpack, RpcResult(id, PackedOnce(packed))) == Answer(inner)
  {
    RpcResultParts(id, PackedOnce(packed));
    PackedOnceBack(unpack, packed);
    hide RpcResult, PackedOnce, UnwrapGzip, LooksPacked;
  }

  lemma ErrorMeans(unpack: Gzip, id: u64, code: i32, message: seq<byte>, rest: seq<byte>)
    requires Utf8(message) && |message| < 0x100_0000
    ensures var inner := Le(RPC_ERROR, 4) + (Le(U32Of(code), 4) + (EncBytes(message, 8) + rest));
            ParseBody(unpack, RpcResult(id, inner)) == RpcFailed(code, message)
  {
    hide Le, FromLe, EncBytes, Utf8, GetBytes;
    var inner := Le(RPC_ERROR, 4) + (Le(U32Of(code), 4) + (EncBytes(message, 8) + rest));
    RpcResultParts(id, inner);
    assert inner[0..4] == Le(RPC_ERROR, 4) && inner[4..8] == Le(U32Of(code), 4);
    assert inner[8..8 + |EncBytes(message, 8)|] == EncBytes(message, 8);
    ReadBackU32(inner, 4, U32Of(code));
    ReadBackBytes(message, 8, inner, 8);
    SignBack(code);
    Pow256Values();
    FromLeLe(RPC_ERROR, 4);
    hide RpcResult;
  }

  /** A dropped answer and a payload cut short are errors, and so is a rejection inside. */
  lemma BrokenMeans(unpack: Gzip, id: u64, inner: seq<byte>)
    ensures |inner| < 4 ==> ParseBody(unpack, RpcResult(id, inner)) == Broken(Protocol)
    ensures |inner| >= 4 && CtorOf(inner) in DROPPED ==> ParseBody(unpack, RpcResult(id, inner)) == Broken(Rpc)
    ensures |inner| >= 4 && CtorOf(inner) == BAD_MSG_NOTIFICATION ==>
              ParseBody(unpack, RpcResult(id, inner))
              == Broken(if BadMsg(inner).Ok? then ClassifyBadMsg(BadMsg(inner).value.1) else BadMsg(inner).error)
  {
    RpcResultParts(id, inner);
    hide RpcResult, FromLe, BadMsg, ClassifyBadMsg;
  }

  // ---- frames ----

  /** A container of messages none of which is packed comes apart into their bodies. */
  lemma {:induction false} PlainBodies(unpack: Gzip, items: seq<seq<byte>>)
    requires forall i :: 0 <= i < |items| ==> !LooksPacked(items[i])
    ensures UnwrappedAll(unpack, items) == Ok(items)
  {
    if items != [] {
      var k := |items| - 1;
      var before, last := items[..k], items[k];
      assert forall i :: 0 <= i < k ==> before[i] == items[i];
      PlainBodies(unpack, before);
      NotPacked(unpack, last);
      assert before + [last] == items;
      hide LooksPacked, Unwrapped;
      assert UnwrappedAll(unpack, items) == Ok(before + [last]);
    }
  }

  lemma NotPacked(unpack: Gzip, item: seq<byte>)
    requires !LooksPacked(item)
    ensures Unwrapped(unpack, item, MAX_NESTING) == Ok(item)
  {
  }

  lemma FrameMeans(unpack: Gzip, ms: seq<Inner>, rest: seq<byte>)
    requires |ms| < TWO_31 && forall m :: m in ms ==> |m.body| < TWO_32 && !LooksPacked(m.body)
    ensures PlainItems(unpack, EncContainer(ms) + rest) == Ok(Bodies(ms))
  {
    var data := EncContainer(ms) + rest;
    ContainerBack(ms, rest);
    ContainerHead(ms, rest);
    forall i | 0 <= i < |ms| ensures !LooksPacked(Bodies(ms)[i]) {
      assert Bodies(ms)[i] == ms[i].body && ms[i] in ms;
    }
    PlainBodies(unpack, Bodies(ms));
    hide EncContainer, Bodies, LooksPacked, Items, UnwrappedAll, FromLe;
    assert UnwrapGzip(unpack, data) == Ok(data);
  }

  lemma ContainerHead(ms: seq<Inner>, rest: seq<byte>)
    ensures var data := EncContainer(ms) + rest; |data| >= 8 && FromLe(data[0..4]) == MSG_CONTAINER
  {
    hide Le, FromLe;
    var data := EncContainer(ms) + rest;
    assert data[0..4] == Le(MSG_CONTAINER, 4);
    Pow256Values();
    FromLeLe(MSG_CONTAINER, 4);
  }

  /** Items are unwrapped one by one and keep their places; the first that fails decides. */
  lemma {:induction false} EachUnwrapped(unpack: Gzip, items: seq<seq<byte>>)
    ensures match UnwrappedAll(unpack, items)
            case Ok(plain) =>
              |plain| == |items|
              && forall i :: 0 <= i < |items| ==> Unwrapped(unpack, items[i], MAX_NESTING) == Ok(plain[i])
            case Err(e) =>
              exists i :: 0 <= i < |items| && Unwrapped(unpack, items[i], MAX_NESTING) == Err(e)
                          && FirstBad(unpack, items, i)
  {
    if items != [] {
      var k := |items| - 1;
      EachUnwrapped(unpack, items[..k]);
      hide Unwrapped;
      match UnwrappedAll(unpack, items[..k])
      case Ok(before) =>
        if Unwrapped(unpack, items[k], MAX_NESTING).Err? {
          assert FirstBad(unpack, items, k);
        }
      case Err(e) =>
        var i :| 0 <= i < k && Unwrapped(unpack, items[..k][i], MAX_NESTING) == Err(e)
                 && FirstBad(unpack, items[..k], i);
        assert FirstBad(unpack, items, i) && items[i] == items[..k][i];
    }
  }

  predicate FirstBad(unpack: Gzip, items: seq<seq<byte>>, i: int) {
    0 <= i < |items| && forall j :: 0 <= j < i ==> Unwrapped(unpack, items[j], MAX_NESTING).Ok?
  }

  // ---- the choice of one message ----

  /** Item `i` is the first result. */
  predicate IsFirstResult(items: seq<seq<byte>>, i: int)
    requires AllLong(items)
  {
    0 <= i < |items| && CtorOf(items[i]) == RPC_RESULT && forall j :: 0 <= j < i ==> CtorOf(items[j]) != RPC_RESULT
  }

  const NOISE: set<u32> := {MSGS_ACK, PONG, NEW_SESSION_CREATED, NEW_SERVER_SALT}

  /** Item `i` is the first that is no acknowledgement, pong or announcement. */
  predicate IsFirstSignal(items: seq<seq<byte>>, i: int)
    requires AllLong(items)
  {
    0 <= i < |items| && CtorOf(items[i]) !in NOISE && forall j :: 0 <= j < i ==> CtorOf(items[j]) in NOISE
  }

  lemma {:induction false} FirstResultMeans(items: seq<seq<byte>>)
    requires AllLong(items)
    ensures FirstResult(items).Some? ==> exists i :: IsFirstResult(items, i) && items[i] == FirstResult(items).value
    ensures FirstResult(items).None? ==> forall i :: 0 <= i < |items| ==> CtorOf(items[i]) != RPC_RESULT
  {
    hide CtorOf;
    if items != [] {
      assert forall j :: 0 <= j < |items| - 1 ==> items[1..][j] == items[j + 1];
      if CtorOf(items[0]) == RPC_RESULT {
        assert IsFirstResult(items, 0);
      } else {
        FirstResultMeans(items[1..]);
        if i :| IsFirstResult(items[1..], i) && FirstResult(items) == Some(items[1..][i]) {
          assert IsFirstResult(items, i + 1);
        }
      }
    }
  }

  lemma {:induction false} FirstSignalMeans(items: seq<seq<byte>>)
    requires AllLong(items)
    ensures FirstSignal(items).Some? ==> exists i :: IsFirstSignal(items, i) && items[i] == FirstSignal(items).value
    ensures FirstSignal(items).None? ==> forall i :: 0 <= i < |items| ==> CtorOf(items[i]) in NOISE
  {
    hide CtorOf;
    if items != [] {
      assert forall j :: 0 <= j < |items| - 1 ==> items[1..][j] == items[j + 1];
      if CtorOf(items[0]) !in NOISE {
        assert IsFirstSignal(items, 0);
      } else {
        FirstSignalMeans(items[1..]);
        if i :| IsFirstSignal(items[1..], i) && FirstSignal(items) == Some(items[1..][i]) {
          assert IsFirstSignal(items, i + 1);
        }
      }
    }
  }
}
