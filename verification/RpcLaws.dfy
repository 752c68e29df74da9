/** What runs of `send_rpc` mean: which attempts the server can have executed, told by the
    ids its messages name, and exactly when the client panics. */
module RpcLaws {
  import opened Wrappers
  import opened Bytes
  import opened Serialize
  import opened KeyExchange
  import opened Ige
  import opened Session
  import opened Frames
  import opened Service
  import opened SendRpc

  // ---- what a message says about a request ----

  /** The request a message declares unprocessed: for a salt or clock rejection the id in its
      bytes 4 to 12, for a missing initialisation the id of the result. */
  function RejectedId(z: Setting, item: seq<byte>): Option<u64> {
    if |item| < 12 then None
    else
      var ctor := CtorOf(item);
      if ctor == BAD_SERVER_SALT then Some(AnsweredId(item))
      else if ctor == BAD_MSG_NOTIFICATION then
        if BadMsg(item).Ok? && (BadMsg(item).value.1 == 16 || BadMsg(item).value.1 == 17)
        then Some(BadMsg(item).value.0) else None
      else if ctor == RPC_RESULT then
        match ParseBody(z.unpack, item)
        case RpcFailed(_, message) => if z.notInited(message) then Some(AnsweredId(item)) else None
        case _ => None
      else None
  }

  /** The request an item answers with a body. */
  function FulfilledId(z: Setting, item: seq<byte>): Option<u64> {
    if |item| >= 12 && CtorOf(item) == RPC_RESULT && ParseBody(z.unpack, item).Answer? then Some(AnsweredId(item))
      else None
  }

  /** Some message of the run declares attempt `j` unprocessed. */
  ghost predicate Disowned(z: Setting, trace: seq<Attempt>, j: nat) {
    exists i: nat, k: nat, n: nat :: SaidAt(trace, i, k, n) && RejectedId(z, trace[i].frames[k][n]) == Some(z.s.ids(j))
  }

  predicate SaidAt(trace: seq<Attempt>, i: nat, k: nat, n: nat) {
    i < |trace| && k < |trace[i].frames| && n < |trace[i].frames[k]|
  }

  /** The server tells the truth about the requests it names: it declares unprocessed only
      what it never executes, and answers only what it executed. */
  ghost predicate Truthful(executed: nat -> bool, z: Setting, trace: seq<Attempt>) {
    forall i: nat, k: nat, n: nat, j: nat :: SaidAt(trace, i, k, n) && j < |trace| ==>
      Agrees(executed(j), z, trace[i].frames[k][n], z.s.ids(j))
  }

  predicate Agrees(executed: bool, z: Setting, item: seq<byte>, id: u64) {
    && (RejectedId(z, item) == Some(id) ==> !executed)
    && (FulfilledId(z, item) == Some(id) ==> executed)
  }

  /** The run met no network failure and no timeout. */
  predicate Unbroken(trace: seq<Attempt>) {
    forall i :: 0 <= i < |trace| ==> trace[i].end != Lost
  }

  // ---- which attempts can have been executed ----

  lemma DisownedNotExecuted(executed: nat -> bool, z: Setting, trace: seq<Attempt>, j: nat)
    requires Truthful(executed, z, trace) && j < |trace| && Disowned(z, trace, j)
    ensures !executed(j)
  {
    var i: nat, k: nat, n: nat :| SaidAt(trace, i, k, n) && RejectedId(z, trace[i].frames[k][n]) == Some(z.s.ids(j));
    assert Agrees(executed(j), z, trace[i].frames[k][n], z.s.ids(j));
  }

  /** Nothing but a message that names an attempt speaks against its execution. */
  lemma CanBeExecuted(executed: nat -> bool, z: Setting, trace: seq<Attempt>, j: nat)
    requires Truthful(executed, z, trace) && j < |trace| && !Disowned(z, trace, j)
    ensures Truthful((i: nat) => i == j || executed(i), z, trace)
  {
    var more := (i: nat) => i == j || executed(i);
    forall i: nat, k: nat, n: nat, m: nat | SaidAt(trace, i, k, n) && m < |trace|
      ensures Agrees(more(m), z, trace[i].frames[k][n], z.s.ids(m))
    {
      assert Agrees(executed(m), z, trace[i].frames[k][n], z.s.ids(m));
      if m == j {
        assert RejectedId(z, trace[i].frames[k][n]) != Some(z.s.ids(j));
      }
    }
  }

  /** No attempt but the last was executed. */
  ghost predicate OnlyLast(executed: nat -> bool, trace: seq<Attempt>) {
    forall i :: 0 <= i < |trace| - 1 ==> !executed(i)
  }

  ghost predicate AtMostOne(executed: nat -> bool, trace: seq<Attempt>) {
    forall i: nat, j: nat :: i < j < |trace| ==> !(executed(i) && executed(j))
  }

  /** Of any two attempts, some message of the run declares one unprocessed. */
  ghost predicate PairwiseDisowned(z: Setting, trace: seq<Attempt>) {
    forall i: nat, j: nat :: i < j < |trace| ==> Disowned(z, trace, i) || Disowned(z, trace, j)
  }

  /** The client goes on from an executed attempt only because of a salt or clock rejection
      that names another message, or none. */
  lemma MisledBy(executed: nat -> bool, z: Setting, st: Shared, j: nat) returns (n: nat)
    requires var trace := RunFrom(z, 0, st).trace; Truthful(executed, z, trace) && Unbroken(trace)
    requires j < |RunFrom(z, 0, st).trace| - 1 && executed(j)
    ensures Misleads(z, RunFrom(z, 0, st).trace, j, n)
  {
    EveryRun(z, 0, st);
    n := MisledIn(executed, z, RunFrom(z, 0, st).trace, j);
  }

  /** Message `n` of the last frame of attempt `j` made the client send again, though it says
      nothing about that attempt. */
  ghost predicate Misleads(z: Setting, trace: seq<Attempt>, j: nat, n: nat) {
    && j < |trace| && trace[j].frames != [] && n < |trace[j].frames[|trace[j].frames| - 1]| &&
    var item := trace[j].frames[|trace[j].frames| - 1][n];
    && |item| >= 4 && (CtorOf(item) == BAD_SERVER_SALT || CtorOf(item) == BAD_MSG_NOTIFICATION)
    && Cause(ContextAt(z, j), item) && RejectedId(z, item) != Some(z.s.ids(j))
  }

  lemma MisledIn(executed: nat -> bool, z: Setting, trace: seq<Attempt>, j: nat) returns (n: nat)
    requires GoodRun(z, 0, trace) && Truthful(executed, z, trace) && Unbroken(trace)
    requires j < |trace| - 1 && executed(j)
    ensures Misleads(z, trace, j, n)
  {
    hide AllDrained, Cause, RejectedId, FulfilledId, ContextAt;
    assert GoodAttempt(z, 0 + j, trace[j]) && trace[j].end == Rejected;
    var k := |trace[j].frames| - 1;
    n :| n < |trace[j].frames[k]| && Cause(ContextAt(z, j), trace[j].frames[k][n]);
    assert SaidAt(trace, j, k, n);
    assert Agrees(executed(j), z, trace[j].frames[k][n], z.s.ids(j));
    CauseNames(z, j, trace[j].frames[k][n]);
  }

  /** At most once, exactly: whatever the run, the request cannot have been executed twice by a
      truthful server, if and only if of any two attempts one is named as unprocessed. In an
      unbroken run where that fails for two of them, the client left the earlier one because of
      a rejection whose id it did not compare with its own. */
  lemma AtMostOnceExactly(witnessed: nat -> bool, z: Setting, st: Shared)
    requires Truthful(witnessed, z, RunFrom(z, 0, st).trace)
    ensures var trace := RunFrom(z, 0, st).trace;
            (forall executed: nat -> bool :: Truthful(executed, z, trace) ==> AtMostOne(executed, trace))
            <==> PairwiseDisowned(z, trace)
    ensures var trace := RunFrom(z, 0, st).trace;
            Unbroken(trace) ==>
              forall i: nat, j: nat :: i < j < |trace| && !Disowned(z, trace, i) && !Disowned(z, trace, j) ==>
                Misled(z, trace, i)
  {
    var trace := RunFrom(z, 0, st).trace;
    EveryRun(z, 0, st);
    hide RunFrom, GoodRun, Truthful, Disowned, Unbroken, Misled;
    if PairwiseDisowned(z, trace) {
      forall executed: nat -> bool | Truthful(executed, z, trace) ensures AtMostOne(executed, trace) {
        NotBoth(executed, z, trace);
      }
    } else {
      var i: nat, j: nat :| i < j < |trace| && !Disowned(z, trace, i) && !Disowned(z, trace, j);
      var both := BothExecuted(witnessed, z, trace, i, j);
      assert !AtMostOne(both, trace);
    }
    if Unbroken(trace) {
      forall i: nat, j: nat | i < j < |trace| && !Disowned(z, trace, i) && !Disowned(z, trace, j)
        ensures Misled(z, trace, i)
      {
        var both := BothExecuted(witnessed, z, trace, i, j);
        var n := MisledIn(both, z, trace, i);
        MisledAt(z, trace, i, n);
      }
    }
  }

  /** Some message made the client leave attempt `i`, though it says nothing about it. */
  ghost predicate Misled(z: Setting, trace: seq<Attempt>, i: nat) {
    exists n: nat :: Misleads(z, trace, i, n)
  }

  lemma MisledAt(z: Setting, trace: seq<Attempt>, i: nat, n: nat)
    requires Misleads(z, trace, i, n)
    ensures Misled(z, trace, i)
  {
  }

  lemma NotBoth(executed: nat -> bool, z: Setting, trace: seq<Attempt>)
    requires Truthful(executed, z, trace) && PairwiseDisowned(z, trace)
    ensures AtMostOne(executed, trace)
  {
    hide Truthful, Disowned;
    forall i: nat, j: nat | i < j < |trace| ensures !(executed(i) && executed(j)) {
      if Disowned(z, trace, i) {
        DisownedNotExecuted(executed, z, trace, i);
      } else {
        DisownedNotExecuted(executed, z, trace, j);
      }
    }
  }

  /** Two attempts that nothing names can both have been executed. */
  lemma BothExecuted(witnessed: nat -> bool, z: Setting, trace: seq<Attempt>, i: nat, j: nat)
      returns (both: nat -> bool)
    requires Truthful(witnessed, z, trace) && i < |trace| && j < |trace|
    requires !Disowned(z, trace, i) && !Disowned(z, trace, j)
    ensures Truthful(both, z, trace) && both(i) && both(j)
  {
    hide Truthful, Disowned;
    var one := (k: nat) => k == i || witnessed(k);
    both := (k: nat) => k == j || one(k);
    CanBeExecuted(witnessed, z, trace, i);
    CanBeExecuted(one, z, trace, j);
  }

  /** A missing initialisation makes the client send again only for the current request. */
  lemma CauseNames(z: Setting, j: nat, item: seq<byte>)
    requires Cause(ContextAt(z, j), item)
    ensures |item| >= 4
    ensures CtorOf(item) == BAD_SERVER_SALT || CtorOf(item) == BAD_MSG_NOTIFICATION
            || (CtorOf(item) == RPC_RESULT && RejectedId(z, item) == Some(z.s.ids(j)))
  {
  }

  /** Whatever the server rejects is the attempt that is current. */
  ghost predicate RejectsCurrent(z: Setting, trace: seq<Attempt>) {
    forall i: nat, k: nat, n: nat :: SaidAt(trace, i, k, n) && Cause(ContextAt(z, i), trace[i].frames[k][n]) ==>
      RejectedId(z, trace[i].frames[k][n]) == Some(z.s.ids(i))
  }

  /** In an unbroken run against a truthful server that rejects only the current attempt, no
      attempt but the last was executed. */
  lemma ExecutedAtMostOnce(executed: nat -> bool, z: Setting, st: Shared)
    requires var trace := RunFrom(z, 0, st).trace;
             Unbroken(trace) && Truthful(executed, z, trace) && RejectsCurrent(z, trace)
    ensures OnlyLast(executed, RunFrom(z, 0, st).trace)
  {
    hide RunFrom, GoodRun, Unbroken, Truthful, RejectsCurrent;
    EveryRun(z, 0, st);
    NotTwice(executed, z, RunFrom(z, 0, st).trace);
  }

  lemma NotTwice(executed: nat -> bool, z: Setting, trace: seq<Attempt>)
    requires GoodRun(z, 0, trace) && Unbroken(trace) && Truthful(executed, z, trace) && RejectsCurrent(z, trace)
    ensures OnlyLast(executed, trace)
  {
    hide GoodRun, Unbroken, Truthful, RejectsCurrent, Misleads;
    forall j | 0 <= j < |trace| - 1 ensures !executed(j) {
      if executed(j) {
        var n := MisledIn(executed, z, trace, j);
        NeverMisled(z, trace, j, n);
      }
    }
  }

  lemma NeverMisled(z: Setting, trace: seq<Attempt>, j: nat, n: nat)
    requires RejectsCurrent(z, trace)
    ensures !Misleads(z, trace, j, n)
  {
    hide Cause, RejectedId, ContextAt;
    if j < |trace| && trace[j].frames != [] && n < |trace[j].frames[|trace[j].frames| - 1]| {
      assert SaidAt(trace, j, |trace[j].frames| - 1, n);
    }
  }

  /** The body was not handed back from a service reply in the frame. */
  predicate IsResultBody(items: seq<seq<byte>>, body: seq<byte>) {
    !(ServiceReply(body) && body in items)
  }

  /** Exactly once: when such a run returns an `rpc_result` body, its last attempt, and only
      that one, was executed, and the body came in an answer to that attempt's id. */
  lemma ExecutedExactlyOnce(executed: nat -> bool, z: Setting, st: Shared)
    requires var r := RunFrom(z, 0, st);
             && Unbroken(r.trace) && Truthful(executed, z, r.trace) && RejectsCurrent(z, r.trace) && r.result.Ok?
             && IsResultBody(LastFrame(r.trace), r.result.value)
    ensures var trace := RunFrom(z, 0, st).trace;
            && trace != []
            && (forall i :: 0 <= i < |trace| ==> (executed(i) <==> i == |trace| - 1))
            && (exists item :: item in LastFrame(trace) && |item| >= 12 && AnsweredId(item) == trace[|trace| - 1].id)
  {
    hide RunFrom, GoodRun, Unbroken, Truthful, RejectsCurrent, HasAnswer, IsResultBody, LastFrame, ContextAt;
    EveryRun(z, 0, st);
    ExecutedAtMostOnce(executed, z, st);
    LastExecuted(executed, z, RunFrom(z, 0, st));
  }

  lemma LastExecuted(executed: nat -> bool, z: Setting, r: Run)
    requires r.trace != [] && r.result.Ok? && Truthful(executed, z, r.trace)
    requires IsResultBody(LastFrame(r.trace), r.result.value)
    requires HasAnswer(ContextAt(z, 0 + |r.trace| - 1), LastFrame(r.trace), r.result.value)
    requires GoodRun(z, 0, r.trace)
    ensures executed(|r.trace| - 1)
    ensures exists item :: item in LastFrame(r.trace) && |item| >= 12 && AnsweredId(item) == r.trace[|r.trace| - 1].id
  {
    hide GoodAttempt, HasAnswer, IsResultBody, Agrees, ContextAt;
    var last, items := |r.trace| - 1, LastFrame(r.trace);
    NoAnswerInNothing(ContextAt(z, last), r.result.value);
    var a := r.trace[last];
    assert GoodAttempt(z, 0 + last, a);
    var n := TheAnswer(z, last, items, r.result.value);
    assert SaidAt(r.trace, last, |a.frames| - 1, n);
    assert Agrees(executed(last), z, items[n], z.s.ids(last));
    Fulfilled(executed(last), z, items[n], z.s.ids(last));
    assert items[n] in items;
    NamedByScript(z, last, a);
  }

  lemma Fulfilled(executed: bool, z: Setting, item: seq<byte>, id: u64)
    requires Agrees(executed, z, item, id) && FulfilledId(z, item) == Some(id)
    ensures executed
  {
  }

  lemma NamedByScript(z: Setting, i: nat, a: Attempt)
    requires GoodAttempt(z, i, a)
    ensures a.id == z.s.ids(i)
  {
    hide HasCause, AllDrained;
  }

  lemma NoAnswerInNothing(c: Context, body: seq<byte>)
    ensures !HasAnswer(c, [], body)
  {
  }

  lemma TheAnswer(z: Setting, i: nat, items: seq<seq<byte>>, body: seq<byte>) returns (n: nat)
    requires IsResultBody(items, body) && HasAnswer(ContextAt(z, i), items, body)
    ensures n < |items| && |items[n]| >= 12
    ensures AnsweredId(items[n]) == z.s.ids(i) && FulfilledId(z, items[n]) == Some(z.s.ids(i))
  {
    var c := ContextAt(z, i);
    n :| n < |items| && Answering(c, items[n], body);
    assert items[n] in items;
    assert Answers(c, items[n], body);
  }

  // ---- what a message does to the session ----

  /** A frame of one announcement leaves the salt it carries. */
  lemma SaltTaken(c: Context, st: Shared, bad: u64, seqNo: u32, code: u32, first: u64, unique: u64, salt: u64,
                  rest: seq<byte>)
    ensures ScanAll(c, st, [BadServerSalt(bad, seqNo, code, salt, rest)], false).0 == st.(salt := salt)
    ensures ScanAll(c, st, [NewSession(first, unique, salt, rest)], false).0 == st.(salt := salt)
    ensures ScanAll(c, st, [NewServerSalt(salt, rest)], false).0 == st.(salt := salt)
  {
    BadServerSaltMeans(bad, seqNo, code, salt, rest);
    NewSessionMeans(first, unique, salt, rest);
    NewServerSaltMeans(salt, rest);
    hide BadServerSalt, NewSession, NewServerSalt, AnnouncedSalt, CtorOf, AnsweredId, BadMsg, ParseBody;
    LoneItem(c, st, BadServerSalt(bad, seqNo, code, salt, rest));
    LoneItem(c, st, NewSession(first, unique, salt, rest));
    LoneItem(c, st, NewServerSalt(salt, rest));
  }

  lemma LoneItem(c: Context, st: Shared, item: seq<byte>)
    ensures ScanAll(c, st, [item], false).0 == ScanOne(c, st, item).0
    ensures ScanOne(c, st, item).1 == Again ==> ScanAll(c, st, [item], false).1 == Restart
  {
    hide ScanOne;
    var one: seq<seq<byte>> := [item];
    assert one[1..] == [] && one[0] == item;
  }

  /** A clock rejection, while attempts are left, sets the offset to the server time in the id
      it names less the local time, and starts the next attempt. */
  lemma ClockCorrected(c: Context, st: Shared, id: u64, seqNo: u32, code: i32, rest: seq<byte>)
    requires c.attempt < 3 && (code == 16 || code == 17)
    ensures ScanAll(c, st, [BadMsgNotification(id, seqNo, code, rest)], false)
            == (st.(offset := id / TWO_32 - c.now), Restart)
  {
    BadMsgMeans(id, seqNo, code, rest);
    hide BadMsgNotification, CtorOf, BadMsg, ParseBody;
    LoneItem(c, st, BadMsgNotification(id, seqNo, code, rest));
  }

  /** The four kinds of updates are pushed to the pump, when there is one, and drained. */
  lemma UpdatesPumped(c: Context, st: Shared, ctor: u32, rest: seq<byte>)
    requires ctor in {UPDATES, UPDATES_COMBINED, UPDATE_SHORT, UPDATE_SHORT_SENT_MESSAGE}
    ensures var item := Le(ctor, 4) + rest;
            ScanAll(c, st, [item], false)
            == (if c.pump then st.(pushed := st.pushed + [item]) else st, Waiting(false))
  {
    var item := Le(ctor, 4) + rest;
    assert item[0..4] == Le(ctor, 4);
    Pow256Values();
    FromLeLe(ctor, 4);
    hide Le, FromLe, AnsweredId, BadMsg, ParseBody;
    LoneItem(c, st, item);
  }

  /** A frame the server sealed is opened with its own salt, its id is queued, and its items
      are walked. */
  lemma {:induction false} FrameTaken(aes: Cipher, c: Context, st: Shared, count: nat, m: Message, session: u64,
                   seqNo: i32, padding: seq<byte>)
    requires Inverse(c.channel.inverse, aes) && |m.payload| < TWO_31 && (|m.payload| + |padding|) % 16 == 0
    ensures var ch := c.channel;
            var look := OneFrame(c, Received(SealedFrame(aes, ch, m, session, seqNo, padding)), st, count);
            && look.ids == [m.msgId]
            && match PlainItems(c.unpack, m.payload)
               case Err(e) => look.st == st.(salt := m.salt) && look.step == Stop(Some(Err(e))) && look.frames == []
               case Ok(items) =>
                 look.st == ScanAll(c, st.(salt := m.salt), items, false).0 && look.frames == [items]
  {
    hide Sealed, Plaintext, PlainItems, ScanAll, Opened, Inverse;
    var plain := Plaintext(m.salt, session, m.msgId, seqNo, m.payload, padding);
    OpenSealed(aes, c.channel.inverse, c.channel.sha, c.channel.authKey, c.channel.authKeyId, plain, 8);
    ParseBuilt(m.salt, session, m.msgId, seqNo, m.payload, padding);
  }

  function SealedFrame(aes: Cipher, ch: Channel, m: Message, session: u64, seqNo: i32, padding: seq<byte>): seq<byte>
    requires (|m.payload| + |padding|) % 16 == 0
  {
    WholePlaintext(m, session, seqNo, padding);
    Sealed(aes, ch.sha, ch.authKey, ch.authKeyId,
           Plaintext(m.salt, session, m.msgId, seqNo, m.payload, padding), 8)
  }

  lemma WholePlaintext(m: Message, session: u64, seqNo: i32, padding: seq<byte>)
    requires (|m.payload| + |padding|) % 16 == 0
    ensures |Plaintext(m.salt, session, m.msgId, seqNo, m.payload, padding)| % 16 == 0
  {
    hide *;
  }

  /** How a call that loses its connection ends: after the fourth attempt with the loss itself,
      before it with the failure to reconnect. */
  lemma LossEnds(z: Setting, i: nat, st: Shared)
    requires i < MAX_ATTEMPTS && (z.s.first(i).NetworkFailed? || z.s.first(i).TimedOut?)
    ensures var t := OneAttempt(z, i, st);
            && (i == 3 ==> t.result == Some(Err(if z.s.first(i).NetworkFailed? then Network else Transport)))
            && (i < 3 && z.s.reconnect(i).Some? ==> t.result == Some(Err(z.s.reconnect(i).value)))
            && (i < 3 && z.s.reconnect(i).None? ==> t.result == None && t.st == st.(initialized := false))
  {
  }

  // ---- a request executed twice ----

  /** A rejection of the salt, or of the clock, of the message with id 99. */
  function Rejection(ofSalt: bool): seq<byte> {
    if ofSalt then Le(BAD_SERVER_SALT, 4) + (Le(99, 8) + (Le(0, 4) + Le(48, 4) + Le(7, 8)))
    else Le(BAD_MSG_NOTIFICATION, 4) + (Le(99, 8) + (Le(0, 4) + Le(16, 4)))
  }

  const BOOL_TRUE: u32 := 0x997275b5

  /** The answer `boolTrue` to the message with id 8. */
  function TrueFor8(): seq<byte> {
    Le(RPC_RESULT, 4) + (Le(8, 8) + Le(BOOL_TRUE, 4))
  }

  /** A frame from the server with the given body, padded to whole blocks. */
  function SealedFor(aes: Cipher, ch: Channel, body: seq<byte>): seq<byte> {
    Sealed(aes, ch.sha, ch.authKey, ch.authKeyId,
           Plaintext(0, 0, 1, 1, body, Zeros(PadCount(|body|, false, 0))), 8)
  }

  /** The server rejects something else during the first attempt, which has id 4, and answers
      the second, which has id 8. */
  predicate Misleading(aes: Cipher, z: Setting, ofSalt: bool) {
    && z.s.ids(0) == 4 && z.s.ids(1) == 8
    && z.s.first(0) == Received(SealedFor(aes, z.channel, Rejection(ofSalt)))
    && z.s.first(1) == Received(SealedFor(aes, z.channel, TrueFor8()))
  }

  lemma Opens(aes: Cipher, ch: Channel, body: seq<byte>)
    requires Inverse(ch.inverse, aes) && |body| < TWO_31
    ensures Receive(ch, SealedFor(aes, ch, body)) == Ok(Message(0, 1, body))
  {
    hide Opened, Sealed, Plaintext, Inverse;
    var padding := Zeros(PadCount(|body|, false, 0));
    OpenSealed(aes, ch.inverse, ch.sha, ch.authKey, ch.authKeyId, Plaintext(0, 0, 1, 1, body, padding), 8);
    ParseBuilt(0, 0, 1, 1, body, padding);
  }

  lemma RejectionMeans(z: Setting, ofSalt: bool)
    ensures var item := Rejection(ofSalt);
            && 12 <= |item| < 100 && RejectedId(z, item) == Some(99) && FulfilledId(z, item) == None
            && (ofSalt ==> CtorOf(item) == BAD_SERVER_SALT)
            && (!ofSalt ==> CtorOf(item) == BAD_MSG_NOTIFICATION && BadMsg(item) == Ok((99, 16)))
  {
    if ofSalt {
      Head(BAD_SERVER_SALT, 99, Le(0, 4) + Le(48, 4) + Le(7, 8));
    } else {
      ClockRejectionRead();
    }
  }

  lemma ClockRejectionRead()
    ensures |Rejection(false)| == 20 && CtorOf(Rejection(false)) == BAD_MSG_NOTIFICATION
    ensures BadMsg(Rejection(false)) == Ok((99, 16))
  {
    hide FromLe, Le;
    var item := Rejection(false);
    Head(BAD_MSG_NOTIFICATION, 99, Le(0, 4) + Le(16, 4));
    assert item[12..16] == Le(0, 4) && item[16..20] == Le(16, 4);
    ReadBackU32(item, 12, 0);
    ReadBackU32(item, 16, 16);
  }

  lemma AnswerMeans(z: Setting)
    ensures var item := TrueFor8();
            && |item| == 16 && CtorOf(item) == RPC_RESULT && AnsweredId(item) == 8
            && ParseBody(z.unpack, item) == Answer(Le(BOOL_TRUE, 4))
            && RejectedId(z, item) == None && FulfilledId(z, item) == Some(8)
  {
    hide FromLe, Le, UnwrapGzip, CtorOf, AnsweredId, BadMsg, ParseRpcError;
    Head(RPC_RESULT, 8, Le(BOOL_TRUE, 4));
    TrueInside(z.unpack);
  }

  lemma TrueInside(unpack: Gzip)
    ensures var inner := Le(BOOL_TRUE, 4);
            |inner| == 4 && CtorOf(inner) == BOOL_TRUE && UnwrapGzip(unpack, inner) == Ok(inner)
  {
    var inner := Le(BOOL_TRUE, 4);
    Pow256Values();
    FromLeLe(BOOL_TRUE, 4);
    assert inner[0..4] == inner;
    hide FromLe, Le;
  }

  /** A frame that is one message, neither packed nor a container. */
  lemma BareFrame(unpack: Gzip, item: seq<byte>)
    requires |item| >= 4 && CtorOf(item) != GZIP_PACKED && CtorOf(item) != MSG_CONTAINER
    ensures PlainItems(unpack, item) == Ok([item])
  {
    hide FromLe;
    assert UnwrapGzip(unpack, item) == Ok(item) && !LooksPacked(item);
    assert Unwrapped(unpack, item, MAX_NESTING) == Ok(item) && Items(item) == Ok([item]);
    var one := [item];
    assert one[..|one| - 1] == [] && one[|one| - 1] == item;
    assert UnwrappedAll(unpack, []) == Ok([]);
    assert UnwrappedAll(unpack, one) == Ok([] + one);
    assert [] + one == one;
  }

  /** A frame of one message that ends the wait. */
  lemma LoneFrame(s: Script, c: Context, arrival: Arrival, st: Shared, m: Message, item: seq<byte>,
                  r: Option<Result<seq<byte>>>)
    requires arrival.Received? && Receive(c.channel, arrival.data) == Ok(m)
             && PlainItems(c.unpack, m.payload) == Ok([item])
    requires StepAfter(c, ScanAll(c, st.(salt := m.salt), [item], false).1, 0) == Stop(r)
    ensures var w := Await(s, c, arrival, st, 0); w.result == r && w.frames == [[item]]
  {
    hide Receive, PlainItems, ScanAll, StepAfter;
    var look := OneFrame(c, arrival, st, 0);
    assert look.step == Stop(r) && look.frames == [[item]];
    hide OneFrame;
  }

  lemma RejectionObeyed(c: Context, st: Shared, item: seq<byte>)
    requires |item| >= 4 && c.attempt < 3
    requires CtorOf(item) == BAD_SERVER_SALT || (CtorOf(item) == BAD_MSG_NOTIFICATION && BadMsg(item) == Ok((99, 16)))
    ensures StepAfter(c, ScanAll(c, st, [item], false).1, 0) == Stop(None)
  {
    hide BadMsg, CtorOf, Adopted;
    assert [item][1..] == [] && [item][0] == item;
    assert ScanOne(c, st, item).1 in {Resend, Again};
  }

  lemma AnswerReturned(c: Context, st: Shared, item: seq<byte>, body: seq<byte>)
    requires Answers(c, item, body)
    ensures StepAfter(c, ScanAll(c, st, [item], false).1, 0) == Stop(Some(Ok(body)))
  {
    hide CtorOf, AnsweredId, ParseBody;
    assert [item][0] == item;
    assert ScanOne(c, st, item).1 == Done(Ok(body));
  }

  /** The request is executed twice: against a server that tells nothing but the truth, with
      any keys and ciphers, the rejection names neither attempt, the client sends again, and
      both attempts are executed. */
  lemma ExecutedTwice(aes: Cipher, z: Setting, st: Shared, ofSalt: bool)
    requires Inverse(z.channel.inverse, aes) && Misleading(aes, z, ofSalt)
    ensures var r := RunFrom(z, 0, st);
            && r.result == Ok(Le(BOOL_TRUE, 4)) && |r.trace| == 2 && Unbroken(r.trace)
            && Truthful(_ => true, z, r.trace)
  {
    hide Truthful, Await, RejectedId, FulfilledId, Rejection, TrueFor8, Inverse;
    var t0 := FirstAttempt(aes, z, st, ofSalt);
    var t1 := SecondAttempt(aes, z, t0.st, ofSalt);
    hide OneAttempt, Misleading;
    var r := RunFrom(z, 0, st);
    assert r.trace == [t0.attempt] + [t1.attempt] by {
      assert RunFrom(z, 1, t0.st).trace == [t1.attempt];
    }
    BothAgree(z, r.trace, ofSalt);
  }

  lemma FirstAttempt(aes: Cipher, z: Setting, st: Shared, ofSalt: bool) returns (t: Try)
    requires Inverse(z.channel.inverse, aes) && Misleading(aes, z, ofSalt)
    ensures t == OneAttempt(z, 0, st)
    ensures t.result == None && t.attempt.frames == [[Rejection(ofSalt)]] && t.attempt.end == Rejected
    ensures z.s.ids(0) == 4 && z.s.ids(1) == 8
  {
    hide Await, RejectedId, FulfilledId, Rejection, TrueFor8, Inverse, SealedFor, Receive, PlainItems, StepAfter,
        ScanAll;
    var item, begun := Rejection(ofSalt), st.(initialized := true);
    RejectionMeans(z, ofSalt);
    Opens(aes, z.channel, item);
    BareFrame(z.unpack, item);
    RejectionObeyed(ContextAt(z, 0), begun.(salt := 0), item);
    LoneFrame(z.s, ContextAt(z, 0), z.s.first(0), begun, Message(0, 1, item), item, None);
    t := OneAttempt(z, 0, st);
  }

  lemma SecondAttempt(aes: Cipher, z: Setting, st: Shared, ofSalt: bool) returns (t: Try)
    requires Inverse(z.channel.inverse, aes) && Misleading(aes, z, ofSalt)
    ensures t == OneAttempt(z, 1, st)
    ensures t.result == Some(Ok(Le(BOOL_TRUE, 4))) && t.attempt.frames == [[TrueFor8()]] && t.attempt.end == Final
  {
    hide Await, RejectedId, FulfilledId, Rejection, TrueFor8, Inverse, SealedFor, Receive, PlainItems, StepAfter,
        ScanAll;
    var item, body, begun := TrueFor8(), Le(BOOL_TRUE, 4), st.(initialized := true);
    AnswerMeans(z);
    Opens(aes, z.channel, item);
    BareFrame(z.unpack, item);
    AnswerReturned(ContextAt(z, 1), begun.(salt := 0), item, body);
    LoneFrame(z.s, ContextAt(z, 1), z.s.first(1), begun, Message(0, 1, item), item, Some(Ok(body)));
    t := OneAttempt(z, 1, st);
  }

  lemma BothAgree(z: Setting, trace: seq<Attempt>, ofSalt: bool)
    requires z.s.ids(0) == 4 && z.s.ids(1) == 8
    requires |trace| == 2 && trace[0].frames == [[Rejection(ofSalt)]] && trace[1].frames == [[TrueFor8()]]
    ensures Truthful(_ => true, z, trace)
  {
    RejectionMeans(z, ofSalt);
    AnswerMeans(z);
    hide RejectedId, FulfilledId, Rejection, TrueFor8, CtorOf, BadMsg, ParseBody, AnsweredId, Le;
    forall i: nat, k: nat, n: nat, m: nat | SaidAt(trace, i, k, n) && m < |trace|
      ensures Agrees(true, z, trace[i].frames[k][n], z.s.ids(m))
    {
      assert trace[i].frames[k][n] == if i == 0 then Rejection(ofSalt) else TrueFor8();
    }
  }

  // ---- panics ----

  /** Item `k` is an `rpc_result` cut short, and the walk gets to it. */
  predicate ShortResultAt(c: Context, items: seq<seq<byte>>, k: nat) {
    && k < |items| && 4 <= |items[k]| < 12 && CtorOf(items[k]) == RPC_RESULT
    && forall j :: 0 <= j < k ==> PassedOver(c, items[j])
  }

  ghost predicate ShortResult(c: Context, items: seq<seq<byte>>) {
    exists k :: 0 <= k && ShortResultAt(c, items, k)
  }

  lemma OnePanic(c: Context, st: Shared, item: seq<byte>)
    ensures ScanOne(c, st, item).1 == Done(Err(Panic)) <==> ShortResultAt(c, [item], 0)
    ensures ScanOne(c, st, item).1.Drain? || ScanOne(c, st, item).1.Resend? <==> PassedOver(c, item)
  {
    BodyNeverPanics(c.unpack, item);
  }

  lemma BodyNeverPanics(unpack: Gzip, item: seq<byte>)
    ensures |item| >= 12 ==> ParseBody(unpack, item) != Broken(Panic)
    ensures BadMsg(item) != Err(Panic)
  {
  }

  /** The walk over a frame's items panics exactly when it gets to an `rpc_result` of four to
      eleven bytes. */
  lemma {:induction false} ScanPanics(c: Context, st: Shared, items: seq<seq<byte>>, resend: bool)
    ensures ScanAll(c, st, items, resend).1 == Finished(Err(Panic)) <==> ShortResult(c, items)
    decreases |items|
  {
    if items != [] {
      var item, rest := items[0], items[1..];
      OnePanic(c, st, item);
      hide ScanOne, PassedOver;
      var (next, verdict) := ScanOne(c, st, item);
      assert ShortResultAt(c, [item], 0) <==> ShortResultAt(c, items, 0);
      if verdict.Drain? || verdict.Resend? {
        ScanPanics(c, next, rest, resend || verdict.Resend?);
        forall k | k >= 0 ensures ShortResultAt(c, rest, k) <==> ShortResultAt(c, items, k + 1) {
          LaterShort(c, items, k);
        }
        if k :| 0 <= k && ShortResultAt(c, items, k) {
          assert k > 0 ==> ShortResultAt(c, rest, k - 1);
        }
      }
    }
  }

  lemma LaterShort(c: Context, items: seq<seq<byte>>, k: nat)
    requires items != [] && PassedOver(c, items[0])
    ensures ShortResultAt(c, items[1..], k) <==> ShortResultAt(c, items, k + 1)
  {
    hide PassedOver;
    if ShortResultAt(c, items, k + 1) {
      assert forall j :: 0 <= j < k ==> items[1..][j] == items[j + 1];
    }
    if ShortResultAt(c, items[1..], k) {
      forall j | 0 <= j < k + 1 ensures PassedOver(c, items[j]) {
        assert j > 0 ==> PassedOver(c, items[1..][j - 1]);
      }
    }
  }

  lemma {:induction false} SplittingNeverPanics(unpack: Gzip, items: seq<seq<byte>>)
    ensures UnwrappedAll(unpack, items) != Err(Panic)
    decreases |items|
  {
    if items != [] {
      SplittingNeverPanics(unpack, items[..|items| - 1]);
      UnwrappingNeverPanics(unpack, items[|items| - 1], MAX_NESTING);
    }
  }

  lemma {:induction false} UnwrappingNeverPanics(unpack: Gzip, item: seq<byte>, left: nat)
    ensures Unwrapped(unpack, item, left) != Err(Panic)
    decreases left
  {
    if left > 0 && LooksPacked(item) && UnwrapGzip(unpack, item).Ok? {
      UnwrappingNeverPanics(unpack, UnwrapGzip(unpack, item).value, left - 1);
    }
  }

  lemma ItemsNeverPanic(unpack: Gzip, plaintext: seq<byte>)
    ensures PlainItems(unpack, plaintext) != Err(Panic)
  {
    var body := UnwrapGzip(unpack, plaintext);
    if body.Ok? && Items(body.value).Ok? {
      SplittingNeverPanics(unpack, Items(body.value).value);
    }
  }

  /** What arrived makes the client panic: the inner length is negative, or the walk gets to an
      `rpc_result` cut short. */
  ghost predicate Panics(c: Context, arrival: Arrival) {
    arrival.Received? &&
    var ch := c.channel;
    || NegativeLength(ch.inverse, ch.sha, ch.authKey, ch.authKeyId, arrival.data, 8)
    || (Receive(ch, arrival.data).Ok? &&
        var items := PlainItems(c.unpack, Receive(ch, arrival.data).value.payload);
        items.Ok? && ShortResult(c, items.value))
  }

  predicate EndsInPanic(r: Option<Result<seq<byte>>>) {
    r == Some(Err(Panic))
  }

  lemma FramePanics(c: Context, arrival: Arrival, st: Shared, count: nat)
    ensures OneFrame(c, arrival, st, count).step == Stop(Some(Err(Panic))) <==> Panics(c, arrival)
  {
    hide PlainItems, ScanAll, ShortResult, NegativeLength, Opened;
    if arrival.Received? {
      var ch := c.channel;
      OpenPanics(ch.inverse, ch.sha, ch.authKey, ch.authKeyId, arrival.data, 8);
      var m := Receive(ch, arrival.data);
      if m.Ok? {
        ItemsNeverPanic(c.unpack, m.value.payload);
        var items := PlainItems(c.unpack, m.value.payload);
        if items.Ok? {
          ScanPanics(c, st.(salt := m.value.salt), items.value, false);
        }
      }
    }
  }

  ghost predicate PanicsAt(s: Script, c: Context, from: nat, to: nat) {
    exists n :: from <= n < to && Panics(c, ArrivalAt(s, c.attempt, n))
  }

  lemma {:induction false} AwaitPanics(s: Script, c: Context, st: Shared, count: nat)
    requires count <= MAX_EXTRA_FRAMES
    ensures var w := Await(s, c, ArrivalAt(s, c.attempt, count), st, count);
            EndsInPanic(w.result) <==> PanicsAt(s, c, count, count + w.awaited)
    decreases MAX_EXTRA_FRAMES - count
  {
    var arrival := ArrivalAt(s, c.attempt, count);
    FramePanics(c, arrival, st, count);
    OneFrameLaw(c, arrival, st, count);
    hide OneFrame, Panics, AllDrained, HasCause, HasAnswer;
    var look := OneFrame(c, arrival, st, count);
    var w := Await(s, c, arrival, st, count);
    if look.step.More? {
      AwaitPanics(s, c, look.st, count + 1);
      assert w.awaited == 1 + Await(s, c, ArrivalAt(s, c.attempt, count + 1), look.st, count + 1).awaited;
    } else {
      assert w.awaited == 1 && EndsInPanic(w.result) == Panics(c, arrival);
    }
  }

  lemma AttemptPanics(z: Setting, attempt: nat, st: Shared)
    ensures var t := OneAttempt(z, attempt, st);
            EndsInPanic(t.result) <==> PanicsAt(z.s, ContextAt(z, attempt), 0, t.attempt.awaited)
  {
    hide *;
    var c := ContextAt(z, attempt);
    AttemptWaits(z, attempt, st);
    if z.s.first(attempt).Received? {
      AwaitPanics(z.s, c, st.(initialized := true), 0);
    } else {
      NothingArrived(z.s, c);
    }
  }

  lemma AttemptWaits(z: Setting, attempt: nat, st: Shared)
    ensures var t := OneAttempt(z, attempt, st);
            if z.s.first(attempt).Received? then
              var w := Await(z.s, ContextAt(z, attempt), z.s.first(attempt), st.(initialized := true), 0);
              t.result == w.result && t.attempt.awaited == w.awaited
            else !EndsInPanic(t.result) && t.attempt.awaited == 1
    ensures ContextAt(z, attempt).attempt == attempt && ArrivalAt(z.s, attempt, 0) == z.s.first(attempt)
    ensures 0 <= MAX_EXTRA_FRAMES
  {
    hide Await;
  }

  lemma NothingArrived(s: Script, c: Context)
    requires !ArrivalAt(s, c.attempt, 0).Received?
    ensures !PanicsAt(s, c, 0, 1)
  {
  }

  /** Arrival `n` of attempt `from + i` of the run panics. */
  ghost predicate PanicIn(z: Setting, from: nat, trace: seq<Attempt>, i: nat) {
    i < |trace| && PanicsAt(z.s, ContextAt(z, from + i), 0, trace[i].awaited)
  }

  /** Whatever the server sends and however long the run, `send_rpc` panics exactly when one of
      the arrivals it awaited has a negative inner length, or holds an `rpc_result` of four to
      eleven bytes that the walk gets to. */
  lemma {:induction false} RunPanics(z: Setting, attempt: nat, st: Shared)
    requires attempt < MAX_ATTEMPTS
    ensures var r := RunFrom(z, attempt, st);
            r.result == Err(Panic) <==> exists i: nat :: PanicIn(z, attempt, r.trace, i)
    decreases MAX_ATTEMPTS - attempt
  {
    AttemptPanics(z, attempt, st);
    OneAttemptLaw(z, attempt, st);
    hide OneAttempt, PanicsAt, GoodAttempt, HasAnswer;
    var t, r := OneAttempt(z, attempt, st), RunFrom(z, attempt, st);
    assert PanicIn(z, attempt, r.trace, 0) <==> EndsInPanic(t.result);
    if t.result.None? {
      RunPanics(z, attempt + 1, t.st);
      var rest := RunFrom(z, attempt + 1, t.st);
      var next := attempt + 1;
      if i: nat :| PanicIn(z, next, rest.trace, i) {
        assert PanicIn(z, attempt, r.trace, i + 1);
      }
      if i: nat :| PanicIn(z, attempt, r.trace, i) {
        assert i > 0 && PanicIn(z, next, rest.trace, i - 1);
      }
    } else {
      assert r.trace == [t.attempt];
    }
  }

  /** Four bytes are enough. */
  lemma FourBytesPanic(c: Context, st: Shared)
    ensures ScanAll(c, st, [Le(RPC_RESULT, 4)], false).1 == Finished(Err(Panic))
  {
    Pow256Values();
    FromLeLe(RPC_RESULT, 4);
    var item := Le(RPC_RESULT, 4);
    assert item[0..4] == item;
    assert ShortResultAt(c, [item], 0);
    ScanPanics(c, st, [item], false);
  }
}
