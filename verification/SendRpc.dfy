/** `send_rpc` of `src/pool.rs`: up to four attempts, up to 17 frames each, against any
    server. The bytes that arrive, the clock and the outcome of reconnecting are a script;
    the wire-level send itself and the backoff are not part of it. */
module SendRpc {
  import opened Wrappers
  import opened Bytes
  import opened Serialize
  import opened KeyExchange
  import opened Session
  import opened Frames

  const MAX_ATTEMPTS: nat := 4
  const MAX_EXTRA_FRAMES: nat := 16

  // ---- what one item does ----

  /** The shared state a frame can change. */
  datatype Shared = Shared(salt: u64, offset: i64, initialized: bool, pushed: seq<seq<byte>>)

  /** What is fixed while one frame is looked at. */
  datatype Context = Context(id: u64, attempt: nat, now: u32, pump: bool, unpack: Gzip,
                             notInited: seq<byte> -> bool, channel: Channel)

  type AuthKeyBytes = key: seq<byte> | |key| == 256 witness Zeros(256)

  /** What opens a frame from the server. */
  datatype Channel = Channel(inverse: Cipher, sha: Sha256, authKey: AuthKeyBytes, authKeyId: u64)

  function Receive(ch: Channel, data: seq<byte>): Result<Message> {
    Opened(ch.inverse, ch.sha, ch.authKey, ch.authKeyId, data, 8)
  }

  datatype Verdict = Drain | Resend | Again | Done(result: Result<seq<byte>>)

  function Adopted(st: Shared, ctor: u32, item: seq<byte>): Shared {
    match AnnouncedSalt(ctor, item)
    case None => st
    case Some(salt) => st.(salt := salt)
  }

  predicate IsUpdate(ctor: u32) {
    ctor in {UPDATES, UPDATES_COMBINED, UPDATE_SHORT, UPDATE_SHORT_SENT_MESSAGE}
  }

  function ScanOne(c: Context, st: Shared, item: seq<byte>): (Shared, Verdict) {
    if |item| < 4 then (st, Drain)
    else
      var ctor := CtorOf(item);
      if ctor == BAD_SERVER_SALT then (Adopted(st, ctor, item), Resend)
      else if ctor == NEW_SERVER_SALT || ctor == NEW_SESSION_CREATED then (Adopted(st, ctor, item), Drain)
      else if ctor == BAD_MSG_NOTIFICATION then
        match BadMsg(item)
        case Err(e) => (st, Done(Err(e)))
        case Ok(bad) =>
          if (bad.1 == 16 || bad.1 == 17) && c.attempt < 3 then (st.(offset := bad.0 / TWO_32 - c.now), Again)
          else (st, Done(Err(ClassifyBadMsg(bad.1))))
      else if ctor == FUTURE_SALTS || ctor == MSGS_STATE_INFO then (st, Done(Ok(item)))
      else if IsUpdate(ctor) then (if c.pump then st.(pushed := st.pushed + [item]) else st, Drain)
      else if ctor == RPC_RESULT then
        if |item| < 12 then (st, Done(Err(Panic)))
        else if AnsweredId(item) != c.id then (st, Drain)
        else match ParseBody(c.unpack, item)
          case Answer(body) => (st, Done(Ok(body)))
          case Broken(e) => (st, Done(Err(e)))
          case RpcFailed(_, message) =>
            if c.notInited(message) && c.attempt < 3 then (st.(initialized := false), Again) else (st, Done(Err(Rpc)))
      else (st, Drain)
  }

  datatype FrameVerdict = Waiting(resend: bool) | Restart | Finished(result: Result<seq<byte>>)

  function ScanAll(c: Context, st: Shared, items: seq<seq<byte>>, resend: bool): (Shared, FrameVerdict)
    decreases |items|
  {
    if items == [] then (st, Waiting(resend))
    else
      var (next, verdict) := ScanOne(c, st, items[0]);
      match verdict
      case Drain => ScanAll(c, next, items[1..], resend)
      case Resend => ScanAll(c, next, items[1..], true)
      case Again => (next, Restart)
      case Done(r) => (next, Finished(r))
  }

  // ---- what may cause a re-send, and what answers ----

  /** A message that makes the client send again. The first two kinds do so whichever
      request they name; only the last must name the current one. */
  predicate Cause(c: Context, item: seq<byte>) {
    |item| >= 4 &&
    var ctor := CtorOf(item);
    || ctor == BAD_SERVER_SALT
    || (ctor == BAD_MSG_NOTIFICATION && BadMsg(item).Ok? && (BadMsg(item).value.1 == 16 || BadMsg(item).value.1 == 17))
    || (ctor == RPC_RESULT && |item| >= 12 && AnsweredId(item) == c.id
        && ParseBody(c.unpack, item).RpcFailed? && c.notInited(ParseBody(c.unpack, item).message))
  }

  /** An `rpc_result` for this very message id, with its body. */
  predicate Answers(c: Context, item: seq<byte>, body: seq<byte>) {
    |item| >= 12 && CtorOf(item) == RPC_RESULT && AnsweredId(item) == c.id && ParseBody(c.unpack, item) == Answer(body)
  }

  /** The two service replies that are handed back as they are. */
  predicate ServiceReply(item: seq<byte>) {
    |item| >= 4 && (CtorOf(item) == FUTURE_SALTS || CtorOf(item) == MSGS_STATE_INFO)
  }

  predicate Answering(c: Context, item: seq<byte>, body: seq<byte>) {
    Answers(c, item, body) || (ServiceReply(item) && body == item)
  }

  ghost predicate HasCause(c: Context, items: seq<seq<byte>>) {
    exists i :: 0 <= i < |items| && Cause(c, items[i])
  }

  ghost predicate HasAnswer(c: Context, items: seq<seq<byte>>, body: seq<byte>) {
    exists i :: 0 <= i < |items| && Answering(c, items[i], body)
  }

  lemma OneEvidence(c: Context, st: Shared, item: seq<byte>)
    ensures var v := ScanOne(c, st, item).1;
            && (v.Resend? || v.Again? ==> Cause(c, item))
            && (v.Again? ==> c.attempt < 3)
            && (v.Done? && v.result.Ok? ==> Answering(c, item, v.result.value))
  {
  }

  /** A frame makes the client send again only if it holds a cause, and answers only with
      an item that answers. */
  lemma {:induction false} Evidence(c: Context, st: Shared, items: seq<seq<byte>>, resend: bool)
    ensures var v := ScanAll(c, st, items, resend).1;
            && (v == Waiting(true) && !resend ==> HasCause(c, items))
            && (v.Restart? ==> HasCause(c, items) && c.attempt < 3)
            && (v.Finished? && v.result.Ok? ==> HasAnswer(c, items, v.result.value))
    decreases |items|
  {
    if items != [] {
      OneEvidence(c, st, items[0]);
      var (next, verdict) := ScanOne(c, st, items[0]);
      assert items[0] == items[..][0];
      if verdict.Drain? || verdict.Resend? {
        Evidence(c, next, items[1..], resend || verdict.Resend?);
        assert forall i :: 0 <= i < |items[1..]| ==> items[1..][i] == items[i + 1];
      }
    }
  }

  /** `new_session_created` is adopted and drained: a frame without a cause never makes the
      client send again, whatever else it announces. */
  lemma NoCauseNoResend(c: Context, st: Shared, items: seq<seq<byte>>)
    requires forall i :: 0 <= i < |items| ==> !Cause(c, items[i])
    ensures var v := ScanAll(c, st, items, false).1; v != Waiting(true) && v != Restart
  {
    Evidence(c, st, items, false);
  }

  /** An item the client reads past. */
  predicate Drained(c: Context, item: seq<byte>) {
    ScanOne(c, Shared(0, 0, false, []), item).1 == Drain
  }

  ghost predicate AllDrained(c: Context, items: seq<seq<byte>>) {
    forall i :: 0 <= i < |items| ==> Drained(c, items[i])
  }

  /** A frame leaves the client waiting exactly when every item in it is drained. */
  lemma {:induction false} StillWaiting(c: Context, st: Shared, items: seq<seq<byte>>)
    ensures ScanAll(c, st, items, false).1 == Waiting(false) <==> AllDrained(c, items)
    decreases |items|
  {
    if items != [] {
      var (next, verdict) := ScanOne(c, st, items[0]);
      SameVerdict(c, st, items[0]);
      if verdict.Drain? {
        StillWaiting(c, next, items[1..]);
        assert forall i :: 0 <= i < |items[1..]| ==> items[1..][i] == items[i + 1];
        if AllDrained(c, items[1..]) {
          forall i | 0 <= i < |items| ensures Drained(c, items[i]) {
            assert i > 0 ==> items[i] == items[1..][i - 1];
          }
        }
      } else if verdict.Resend? {
        NeverForgotten(c, next, items[1..]);
      }
    }
  }

  lemma SameVerdict(c: Context, st: Shared, item: seq<byte>)
    ensures ScanOne(c, st, item).1 == Drain <==> Drained(c, item)
  {
  }

  lemma {:induction false} NeverForgotten(c: Context, st: Shared, items: seq<seq<byte>>)
    ensures ScanAll(c, st, items, true).1 != Waiting(false)
    decreases |items|
  {
    if items != [] {
      var (next, verdict) := ScanOne(c, st, items[0]);
      if verdict.Drain? || verdict.Resend? {
        NeverForgotten(c, next, items[1..]);
      }
    }
  }

  // ---- how a walk over a frame ends ----

  /** An item the walk passes without ending the call or starting another attempt at once. */
  predicate PassedOver(c: Context, item: seq<byte>) {
    |item| < 4 ||
    var ctor := CtorOf(item);
    || ctor !in {BAD_MSG_NOTIFICATION, FUTURE_SALTS, MSGS_STATE_INFO, RPC_RESULT}
    || (ctor == RPC_RESULT && |item| >= 12 && AnsweredId(item) != c.id)
  }

  predicate RejectsSalt(item: seq<byte>) {
    |item| >= 4 && CtorOf(item) == BAD_SERVER_SALT
  }

  /** An item that starts another attempt at once: the clock is wrong, or this request found no
      initialised connection. */
  predicate AsksAgain(c: Context, item: seq<byte>) {
    c.attempt < 3 && |item| >= 4 &&
    var ctor := CtorOf(item);
    || (ctor == BAD_MSG_NOTIFICATION && BadMsg(item).Ok?
        && (BadMsg(item).value.1 == 16 || BadMsg(item).value.1 == 17))
    || (ctor == RPC_RESULT && |item| >= 12 && AnsweredId(item) == c.id
        && ParseBody(c.unpack, item).RpcFailed? && c.notInited(ParseBody(c.unpack, item).message))
  }

  /** An item that ends the call with an error. */
  predicate FailsWith(c: Context, item: seq<byte>, e: Error) {
    |item| >= 4 && !AsksAgain(c, item) &&
    var ctor := CtorOf(item);
    || (ctor == BAD_MSG_NOTIFICATION
        && e == if BadMsg(item).Ok? then ClassifyBadMsg(BadMsg(item).value.1) else BadMsg(item).error)
    || (ctor == RPC_RESULT && |item| < 12 && e == Panic)
    || (ctor == RPC_RESULT && |item| >= 12 && AnsweredId(item) == c.id
        && match ParseBody(c.unpack, item)
           case Answer(_) => false
           case Broken(broken) => e == broken
           case RpcFailed(_, _) => e == Rpc)
  }

  lemma OneEnding(c: Context, st: Shared, item: seq<byte>)
    ensures var v := ScanOne(c, st, item).1;
            && (PassedOver(c, item) <==> v.Drain? || v.Resend?)
            && (v.Resend? <==> RejectsSalt(item))
            && (v.Again? <==> AsksAgain(c, item))
            && (forall body :: v == Done(Ok(body)) <==> Answering(c, item, body))
            && (forall e :: v == Done(Err(e)) <==> FailsWith(c, item, e))
  {
  }

  /** Every item before `k` is passed over. */
  predicate Reached(c: Context, items: seq<seq<byte>>, k: nat) {
    k <= |items| && forall j :: 0 <= j < k ==> PassedOver(c, items[j])
  }

  lemma ReachedRest(c: Context, items: seq<seq<byte>>, k: nat)
    requires items != [] && k > 0 && Reached(c, items, k)
    ensures PassedOver(c, items[0]) && Reached(c, items[1..], k - 1)
  {
    hide PassedOver;
    assert forall j :: 0 <= j < k - 1 ==> items[1..][j] == items[j + 1];
  }

  /** The first item that is not passed over decides, whatever precedes and follows it. */
  lemma {:induction false} WalkEnds(c: Context, st: Shared, items: seq<seq<byte>>, resend: bool, k: nat)
    requires k < |items| && Reached(c, items, k)
    ensures var v := ScanAll(c, st, items, resend).1;
            && (forall body :: Answering(c, items[k], body) ==> v == Finished(Ok(body)))
            && (AsksAgain(c, items[k]) ==> v == Restart)
            && (forall e :: FailsWith(c, items[k], e) ==> v == Finished(Err(e)))
    decreases |items|
  {
    OneEnding(c, st, items[0]);
    hide ScanOne, PassedOver, RejectsSalt, AsksAgain, FailsWith, Answering;
    var (next, verdict) := ScanOne(c, st, items[0]);
    if k > 0 {
      ReachedRest(c, items, k);
      WalkEnds(c, next, items[1..], resend || verdict.Resend?, k - 1);
    }
  }

  ghost predicate HasSaltRejection(items: seq<seq<byte>>) {
    exists j :: 0 <= j < |items| && RejectsSalt(items[j])
  }

  /** When nothing ends it, the walk asks for another attempt exactly for a rejected salt. */
  lemma {:induction false} WalkOn(c: Context, st: Shared, items: seq<seq<byte>>, resend: bool)
    requires Reached(c, items, |items|)
    ensures ScanAll(c, st, items, resend).1 == Waiting(resend || HasSaltRejection(items))
    decreases |items|
  {
    if items != [] {
      OneEnding(c, st, items[0]);
      ReachedRest(c, items, |items|);
      hide ScanOne, PassedOver, RejectsSalt, AsksAgain, FailsWith, Answering, Reached;
      var (next, verdict) := ScanOne(c, st, items[0]);
      WalkOn(c, next, items[1..], resend || verdict.Resend?);
      assert HasSaltRejection(items) <==> RejectsSalt(items[0]) || HasSaltRejection(items[1..]) by {
        assert forall j :: 0 <= j < |items| - 1 ==> items[1..][j] == items[j + 1];
        if j :| 0 <= j < |items| && RejectsSalt(items[j]) {
          assert j > 0 ==> RejectsSalt(items[1..][j - 1]);
        }
      }
    }
  }

  /** A walk gets to an item that ends it, or passes over every one. */
  lemma {:induction false} EndOrPassed(c: Context, items: seq<seq<byte>>) returns (k: nat)
    ensures k <= |items| && Reached(c, items, k) && (k < |items| ==> !PassedOver(c, items[k]))
    ensures k < |items| ==>
              || AsksAgain(c, items[k]) || (exists e :: FailsWith(c, items[k], e))
              || (exists body :: Answering(c, items[k], body))
    decreases |items|
  {
    k := 0;
    if items != [] {
      SomeEnding(c, items[0]);
      hide PassedOver, AsksAgain, FailsWith, Answering;
      if PassedOver(c, items[0]) {
        var rest := EndOrPassed(c, items[1..]);
        k := rest + 1;
        forall j | 0 <= j < k ensures PassedOver(c, items[j]) {
          assert j > 0 ==> items[j] == items[1..][j - 1];
        }
      }
    }
  }

  lemma SomeEnding(c: Context, item: seq<byte>)
    ensures PassedOver(c, item) || AsksAgain(c, item) || (exists e :: FailsWith(c, item, e))
            || (exists body :: Answering(c, item, body))
  {
    var st := Shared(0, 0, false, []);
    OneEnding(c, st, item);
    hide ScanOne, PassedOver, RejectsSalt, AsksAgain, FailsWith, Answering;
    var v := ScanOne(c, st, item).1;
    if v.Done? {
      match v.result
      case Ok(body) => assert Answering(c, item, body);
      case Err(e) => assert FailsWith(c, item, e);
    }
  }

  /** The updates among the items, in order. */
  function UpdatesIn(items: seq<seq<byte>>): seq<seq<byte>> {
    if items == [] then []
    else (if |items[0]| >= 4 && IsUpdate(CtorOf(items[0])) then [items[0]] else []) + UpdatesIn(items[1..])
  }

  /** What a walk that passed over `items` left: the last announced salt, and every update
      pushed in order when there is a pump. */
  ghost predicate Passed(c: Context, items: seq<seq<byte>>, st: Shared, after: Shared) {
    && LastSalt(items, st.salt, after.salt)
    && after.pushed == st.pushed + (if c.pump then UpdatesIn(items) else [])
    && after.offset == st.offset && after.initialized == st.initialized
  }

  lemma OnePassed(c: Context, st: Shared, item: seq<byte>)
    requires PassedOver(c, item)
    ensures var after := ScanOne(c, st, item).0;
            && after.salt == (if SaltIn(item).Some? then SaltIn(item).value else st.salt)
            && after.pushed == st.pushed + (if c.pump then UpdatesIn([item]) else [])
            && after.offset == st.offset && after.initialized == st.initialized
  {
    assert [item][1..] == [];
  }

  lemma PassedMore(c: Context, item: seq<byte>, items: seq<seq<byte>>, st: Shared, next: Shared, after: Shared)
    requires Passed(c, items, next, after)
    requires next.salt == (if SaltIn(item).Some? then SaltIn(item).value else st.salt)
    requires next.pushed == st.pushed + (if c.pump then UpdatesIn([item]) else [])
    requires next.offset == st.offset && next.initialized == st.initialized
    ensures Passed(c, [item] + items, st, after)
  {
    hide SaltIn, LastSalt, UpdatesIn;
    LastSaltFirst(item, items, st.salt, after.salt);
    UpdatesFirst(item, items);
  }

  lemma UpdatesFirst(item: seq<byte>, items: seq<seq<byte>>)
    ensures UpdatesIn([item] + items) == UpdatesIn([item]) + UpdatesIn(items)
  {
    hide IsUpdate;
    assert ([item] + items)[1..] == items && [item][1..] == [];
  }

  /** The shared state after a walk that got to item `k`, or past the end: every earlier
      announcement took effect, and besides that only a corrected clock or a forgotten
      initialisation. */
  lemma {:induction false} WalkState(c: Context, st: Shared, items: seq<seq<byte>>, resend: bool, k: nat)
    requires Reached(c, items, k) && (k < |items| ==> !PassedOver(c, items[k]))
    ensures exists before: Shared :: Passed(c, items[..k], st, before) &&
              ScanAll(c, st, items, resend).0 == if k == |items| then before else AfterEnding(c, before, items[k])
    decreases |items|
  {
    if k == 0 {
      assert items[..0] == [] && Passed(c, [], st, st);
      if items != [] {
        OneState(c, st, items[0]);
      }
    } else {
      OnePassed(c, st, items[0]);
      OneEnding(c, st, items[0]);
      ReachedRest(c, items, k);
      hide ScanOne, PassedOver, Passed, AfterEnding, FailsWith, Answering, AsksAgain, RejectsSalt, Reached, SaltIn,
          UpdatesIn;
      var (next, verdict) := ScanOne(c, st, items[0]);
      WalkState(c, next, items[1..], resend || verdict.Resend?, k - 1);
      var before: Shared :| Passed(c, items[1..][..k - 1], next, before) &&
        ScanAll(c, next, items[1..], resend || verdict.Resend?).0
        == if k == |items| then before else AfterEnding(c, before, items[1..][k - 1]);
      PassedMore(c, items[0], items[1..][..k - 1], st, next, before);
      assert [items[0]] + items[1..][..k - 1] == items[..k];
    }
  }

  /** Of the items that end a walk, a clock rejection sets the offset to the server's time less
      the local one, and a missing initialisation clears the mark; the others change nothing. */
  function AfterEnding(c: Context, st: Shared, item: seq<byte>): Shared
    requires |item| >= 4
  {
    if !AsksAgain(c, item) then st
    else if CtorOf(item) == BAD_MSG_NOTIFICATION then st.(offset := BadMsg(item).value.0 / TWO_32 - c.now)
    else st.(initialized := false)
  }

  lemma OneState(c: Context, st: Shared, item: seq<byte>)
    requires !PassedOver(c, item)
    ensures |item| >= 4 && ScanOne(c, st, item).0 == AfterEnding(c, st, item)
    ensures !ScanOne(c, st, item).1.Drain? && !ScanOne(c, st, item).1.Resend?
  {
  }

  // ---- the script ----

  /** What a read brings. */
  datatype Arrival =
    | Received(data: seq<byte>)
    | NetworkFailed
    | TimedOut
    | OtherFailure(error: Failure)

  /** The errors of connecting, sending and reading frames. */
  type Failure = e: Error | e != Panic witness Transport

  datatype Script = Script(
    ids: nat -> u64,                    // the id allocated for each attempt
    first: nat -> Arrival,              // the send and the first read of each attempt
    later: (nat, nat) -> Arrival,       // further reads
    reconnect: nat -> Option<Failure>,  // how reconnecting after an attempt fails, if it does
    clock: nat -> u32)

  function ArrivalAt(s: Script, attempt: nat, n: nat): Arrival {
    if n == 0 then s.first(attempt) else s.later(attempt, n)
  }

  datatype End = Rejected | Lost | Final

  /** One attempt as it happened: its id, whether it carried `initConnection`, the items of
      every frame decoded, how many arrivals it awaited, and how it ended. */
  datatype Attempt = Attempt(id: u64, withInit: bool, frames: seq<seq<seq<byte>>>, awaited: nat, end: End)

  // ---- a whole run as a function of the script ----

  /** What waiting for an answer leads to: the state, the result (`None` asks for another
      attempt), the items of every frame decoded, every frame id received, and how many
      arrivals were awaited. */
  datatype Wait = Wait(st: Shared, result: Option<Result<seq<byte>>>, frames: seq<seq<seq<byte>>>, ids: seq<u64>,
                       awaited: nat)

  /** What one read did: the state, whether the wait goes on, the items decoded (none when
      nothing could be) and the frame id received (none when nothing was). */
  datatype Look = Look(st: Shared, step: Step, frames: seq<seq<seq<byte>>>, ids: seq<u64>)

  /** Read another frame, or stop: with a result, or to try again. */
  datatype Step = More | Stop(result: Option<Result<seq<byte>>>)

  function OneFrame(c: Context, arrival: Arrival, st: Shared, count: nat): Look {
    match arrival
    case NetworkFailed => Look(st, Stop(Some(Err(Network))), [], [])
    case TimedOut => Look(st, Stop(Some(Err(Protocol))), [], [])
    case OtherFailure(e) => Look(st, Stop(Some(Err(e))), [], [])
    case Received(data) =>
      match Receive(c.channel, data)
      case Err(e) => Look(st, Stop(Some(Err(e))), [], [])
      case Ok(m) =>
        match PlainItems(c.unpack, m.payload)
        case Err(e) => Look(st.(salt := m.salt), Stop(Some(Err(e))), [], [m.msgId])
        case Ok(items) =>
          var (next, verdict) := ScanAll(c, st.(salt := m.salt), items, false);
          Look(next, StepAfter(c, verdict, count), [items], [m.msgId])
  }

  function StepAfter(c: Context, verdict: FrameVerdict, count: nat): Step {
    match verdict
    case Restart => Stop(None)
    case Finished(r) => Stop(Some(r))
    case Waiting(resend) =>
      if resend then Stop(if c.attempt < 3 then None else Some(Err(Protocol)))
      else if count >= MAX_EXTRA_FRAMES then Stop(Some(Err(Protocol)))
      else More
  }

  /** The frame loop from frame number `count` on. */
  function Await(s: Script, c: Context, arrival: Arrival, st: Shared, count: nat): Wait
    requires count <= MAX_EXTRA_FRAMES
    decreases MAX_EXTRA_FRAMES - count
  {
    var look := OneFrame(c, arrival, st, count);
    match look.step
    case Stop(r) => Wait(look.st, r, look.frames, look.ids, 1)
    case More =>
      OneFrameLaw(c, arrival, st, count);
      var rest := Await(s, c, s.later(c.attempt, count + 1), look.st, count + 1);
      Wait(rest.st, rest.result, look.frames + rest.frames, look.ids + rest.ids, 1 + rest.awaited)
  }

  lemma OneFrameLaw(c: Context, arrival: Arrival, st: Shared, count: nat)
    ensures var look := OneFrame(c, arrival, st, count);
            && |look.frames| <= |look.ids| <= 1
            && (look.step.More? ==> count < MAX_EXTRA_FRAMES && |look.frames| == 1 && AllDrained(c, look.frames[0]))
            && (look.step == Stop(None) ==> c.attempt < 3 && |look.frames| == 1 && HasCause(c, look.frames[0]))
            && (look.step.Stop? && look.step.result.Some? && look.step.result.value.Ok? ==>
                  |look.frames| == 1 && HasAnswer(c, look.frames[0], look.step.result.value.value))
  {
    hide HasCause, HasAnswer, AllDrained, PlainItems, ScanAll, Receive;
    if arrival.Received? && Receive(c.channel, arrival.data).Ok? {
      var m := Receive(c.channel, arrival.data).value;
      if PlainItems(c.unpack, m.payload).Ok? {
        var items := PlainItems(c.unpack, m.payload).value;
        Evidence(c, st.(salt := m.salt), items, false);
        StillWaiting(c, st.(salt := m.salt), items);
      }
    }
  }

  /** However the server behaves: at most 17 frames; all but the last are drained; another
      attempt only before the fourth and after a frame with a cause; a body only from a
      frame with an answer. */
  lemma {:induction false} AwaitLaw(s: Script, c: Context, arrival: Arrival, st: Shared, count: nat)
    requires count <= MAX_EXTRA_FRAMES
    ensures var w := Await(s, c, arrival, st, count);
            && |w.frames| <= |w.ids| <= w.awaited <= |w.frames| + 1 && 1 <= w.awaited <= 1 + MAX_EXTRA_FRAMES - count
            && (forall k :: 0 <= k < |w.frames| - 1 ==> AllDrained(c, w.frames[k]))
            && (w.result.None? ==> c.attempt < 3 && w.frames != [] && HasCause(c, w.frames[|w.frames| - 1]))
            && (w.result.Some? && w.result.value.Ok? ==>
                  w.frames != [] && HasAnswer(c, w.frames[|w.frames| - 1], w.result.value.value))
    decreases MAX_EXTRA_FRAMES - count
  {
    hide OneFrame, HasCause, HasAnswer, AllDrained;
    OneFrameLaw(c, arrival, st, count);
    var look := OneFrame(c, arrival, st, count);
    if look.step.More? {
      AwaitLaw(s, c, s.later(c.attempt, count + 1), look.st, count + 1);
    }
  }

  /** What does not change during a call. */
  datatype Setting = Setting(s: Script, pump: bool, unpack: Gzip, notInited: seq<byte> -> bool, channel: Channel)

  function ContextAt(z: Setting, attempt: nat): Context {
    Context(z.s.ids(attempt), attempt, z.s.clock(attempt), z.pump, z.unpack, z.notInited, z.channel)
  }

  /** What one attempt did: the state, the result (`None` goes on to the next), the attempt
      as it happened, and every frame id received. */
  datatype Try = Try(st: Shared, result: Option<Result<seq<byte>>>, attempt: Attempt, ids: seq<u64>)

  function OneAttempt(z: Setting, attempt: nat, st: Shared): Try {
    var begun := st.(initialized := true);
    match z.s.first(attempt)
    case NetworkFailed => AfterBreak(z, attempt, st, Network)
    case TimedOut => AfterBreak(z, attempt, st, Transport)
    case OtherFailure(e) => Try(begun, Some(Err(e)), Attempt(z.s.ids(attempt), !st.initialized, [], 1, Final), [])
    case arrival =>
      var w := Await(z.s, ContextAt(z, attempt), arrival, begun, 0);
      var end := if w.result.None? then Rejected else Final;
      Try(w.st, w.result, Attempt(z.s.ids(attempt), !st.initialized, w.frames, w.awaited, end), w.ids)
  }

  /** The connection broke or fell silent: reconnect and go on, except after the fourth. */
  function AfterBreak(z: Setting, attempt: nat, st: Shared, e: Error): Try {
    var begun := st.(initialized := true);
    var a := Attempt(z.s.ids(attempt), !st.initialized, [], 1, Lost);
    if attempt >= 3 then Try(begun, Some(Err(e)), a, [])
    else match z.s.reconnect(attempt)
      case Some(failed) => Try(begun, Some(Err(failed)), a, [])
      case None => Try(begun.(initialized := false), None, a, [])
  }

  datatype Run = Run(st: Shared, result: Result<seq<byte>>, trace: seq<Attempt>, ids: seq<u64>)

  /** The call from attempt number `attempt` on. */
  function RunFrom(z: Setting, attempt: nat, st: Shared): Run
    requires attempt < MAX_ATTEMPTS
    decreases MAX_ATTEMPTS - attempt
  {
    var t := OneAttempt(z, attempt, st);
    match t.result
    case Some(r) => Run(t.st, r, [t.attempt], t.ids)
    case None =>
      OneAttemptLaw(z, attempt, st);
      var rest := RunFrom(z, attempt + 1, t.st);
      Run(rest.st, rest.result, [t.attempt] + rest.trace, t.ids + rest.ids)
  }

  /** What one attempt may look like. */
  ghost predicate GoodAttempt(z: Setting, i: nat, a: Attempt) {
    var c := ContextAt(z, i);
    && a.id == z.s.ids(i) && |a.frames| <= a.awaited && 1 <= a.awaited <= 17
    && (forall k :: 0 <= k < |a.frames| - 1 ==> AllDrained(c, a.frames[k]))
    && (a.end == Rejected ==> i < 3 && a.frames != [] && HasCause(c, a.frames[|a.frames| - 1]))
    && (a.end == Lost ==> a.frames == [] && (z.s.first(i).NetworkFailed? || z.s.first(i).TimedOut?))
  }

  /** Attempts number `from` and following: at most four in all, at most 17 frames each;
      every one but the last was rejected by the server or broken by the network, and after
      a break the next carries the connection's initialisation. */
  ghost predicate GoodRun(z: Setting, from: nat, trace: seq<Attempt>) {
    && trace != [] && from + |trace| <= 4
    && (forall i :: 0 <= i < |trace| ==> GoodAttempt(z, from + i, trace[i]))
    && (forall i :: 0 <= i < |trace| - 1 ==> trace[i].end != Final)
    && (forall i :: 0 < i < |trace| && trace[i - 1].end == Lost ==> trace[i].withInit)
  }

  function LastFrame(trace: seq<Attempt>): seq<seq<byte>> {
    if trace == [] || trace[|trace| - 1].frames == [] then []
    else
      var frames := trace[|trace| - 1].frames;
      frames[|frames| - 1]
  }

  /** Every run against every server is a good one, and a body it returns was taken from the
      last frame of its last attempt. */
  lemma {:induction false} EveryRun(z: Setting, attempt: nat, st: Shared)
    requires attempt < MAX_ATTEMPTS
    ensures var r := RunFrom(z, attempt, st);
            && r.trace != [] && GoodRun(z, attempt, r.trace) && r.trace[0].withInit == !st.initialized
            && (r.result.Ok? ==>
                  r.trace[|r.trace| - 1].end == Final
                  && HasAnswer(ContextAt(z, attempt + |r.trace| - 1), LastFrame(r.trace), r.result.value))
    decreases MAX_ATTEMPTS - attempt
  {
    OneAttemptLaw(z, attempt, st);
    hide OneAttempt, GoodAttempt, GoodRun, HasAnswer, LastFrame, ContextAt;
    var t := OneAttempt(z, attempt, st);
    if t.result.None? {
      EveryRun(z, attempt + 1, t.st);
      Prepended(z, attempt, t.attempt, RunFrom(z, attempt + 1, t.st));
    } else {
      Alone(z, attempt, t.attempt);
    }
  }

  lemma OneAttemptLaw(z: Setting, attempt: nat, st: Shared)
    ensures var t := OneAttempt(z, attempt, st);
            && GoodAttempt(z, attempt, t.attempt) && t.attempt.withInit == !st.initialized
            && (t.result.None? ==> attempt < 3 && t.attempt.end != Final)
            && (t.result.None? && t.attempt.end == Lost ==> !t.st.initialized)
            && (t.result.Some? && t.result.value.Ok? ==>
                  && t.attempt.end == Final
                  && HasAnswer(ContextAt(z, attempt), LastFrame([t.attempt]), t.result.value.value))
  {
    hide Await, HasCause, HasAnswer, AllDrained;
    var arrival := z.s.first(attempt);
    if arrival.Received? {
      AwaitLaw(z.s, ContextAt(z, attempt), arrival, st.(initialized := true), 0);
      assert ContextAt(z, attempt).attempt == attempt;
      hide ContextAt;
    }
  }

  lemma Alone(z: Setting, attempt: nat, a: Attempt)
    requires attempt < MAX_ATTEMPTS && GoodAttempt(z, attempt, a)
    ensures GoodRun(z, attempt, [a])
  {
    hide GoodAttempt;
    forall i | 0 <= i < |[a]| ensures GoodAttempt(z, attempt + i, [a][i]) {
      assert i == 0;
    }
  }

  lemma Prepended(z: Setting, attempt: nat, a: Attempt, rest: Run)
    requires GoodAttempt(z, attempt, a) && a.end != Final && GoodRun(z, attempt + 1, rest.trace)
    requires a.end == Lost ==> rest.trace[0].withInit
    ensures GoodRun(z, attempt, [a] + rest.trace)
    ensures LastFrame([a] + rest.trace) == LastFrame(rest.trace)
  {
    hide GoodAttempt;
    var all := [a] + rest.trace;
    forall i | 0 <= i < |all| ensures GoodAttempt(z, attempt + i, all[i]) {
      if i > 0 {
        assert GoodAttempt(z, attempt + 1 + (i - 1), rest.trace[i - 1]);
      }
    }
  }

  // ---- what a run returns ----

  /** The items of arrival `n` of an attempt, when it can be opened and split. */
  function ItemsOf(s: Script, c: Context, n: nat): Option<seq<seq<byte>>> {
    match ArrivalAt(s, c.attempt, n)
    case Received(data) =>
      (match Receive(c.channel, data)
       case Err(_) => None
       case Ok(m) =>
         match PlainItems(c.unpack, m.payload)
         case Err(_) => None
         case Ok(items) => Some(items))
    case _ => None
  }

  /** Every item is passed over and no salt is rejected. */
  ghost predicate QuietItems(c: Context, items: seq<seq<byte>>) {
    Reached(c, items, |items|) && !HasSaltRejection(items)
  }

  /** The first item that is not passed over answers. */
  ghost predicate AnsweringItems(c: Context, items: seq<seq<byte>>, body: seq<byte>) {
    exists k :: 0 <= k < |items| && Reached(c, items, k) && Answering(c, items[k], body)
  }

  /** The first item that is not passed over asks for another attempt, or there is none and a
      salt was rejected. */
  ghost predicate RejectingItems(c: Context, items: seq<seq<byte>>) {
    || (exists k :: 0 <= k < |items| && Reached(c, items, k) && AsksAgain(c, items[k]))
    || (Reached(c, items, |items|) && HasSaltRejection(items) && c.attempt < 3)
  }

  lemma WalkMeans(c: Context, st: Shared, items: seq<seq<byte>>)
    ensures var v := ScanAll(c, st, items, false).1;
            && (v == Waiting(false) <==> QuietItems(c, items))
            && (forall body :: v == Finished(Ok(body)) <==> AnsweringItems(c, items, body))
            && (v == Restart || (v == Waiting(true) && c.attempt < 3) <==> RejectingItems(c, items))
  {
    var k := EndOrPassed(c, items);
    hide ScanAll, PassedOver, AsksAgain, FailsWith, Answering, HasSaltRejection, Reached;
    if k == |items| {
      WalkOn(c, st, items, false);
      AllReached(c, items);
    } else {
      WalkEnds(c, st, items, false, k);
      OnlyOneEnds(c, items, k);
    }
  }

  /** With nothing but passed items there is no other ending. */
  lemma AllReached(c: Context, items: seq<seq<byte>>)
    requires Reached(c, items, |items|)
    ensures forall k, body :: 0 <= k < |items| ==> !Answering(c, items[k], body)
    ensures forall k :: 0 <= k < |items| ==> !AsksAgain(c, items[k])
  {
    forall k | 0 <= k < |items|
      ensures !AsksAgain(c, items[k]) && forall body :: !Answering(c, items[k], body)
    {
      OneEnding(c, Shared(0, 0, false, []), items[k]);
      hide ScanOne, PassedOver, AsksAgain, FailsWith, Answering, RejectsSalt;
      assert PassedOver(c, items[k]);
    }
  }

  /** Only the first item that is not passed over is reached as such. */
  lemma OnlyOneEnds(c: Context, items: seq<seq<byte>>, k: nat)
    requires k < |items| && Reached(c, items, k) && !PassedOver(c, items[k])
    ensures !Reached(c, items, |items|)
    ensures forall j :: 0 <= j < |items| && Reached(c, items, j) && j != k ==> PassedOver(c, items[j])
    ensures forall j, body :: 0 <= j < |items| && Reached(c, items, j) && Answering(c, items[j], body) ==> j == k
    ensures forall j :: 0 <= j < |items| && Reached(c, items, j) && AsksAgain(c, items[j]) ==> j == k
  {
    forall j | 0 <= j < |items| && Reached(c, items, j) && j != k
      ensures PassedOver(c, items[j]) && !AsksAgain(c, items[j]) && forall body :: !Answering(c, items[j], body)
    {
      assert j < k;
      OneEnding(c, Shared(0, 0, false, []), items[j]);
    }
  }

  ghost predicate Quiet(s: Script, c: Context, n: nat) {
    ItemsOf(s, c, n).Some? && QuietItems(c, ItemsOf(s, c, n).value)
  }

  ghost predicate AnswersAt(s: Script, c: Context, n: nat, body: seq<byte>) {
    ItemsOf(s, c, n).Some? && AnsweringItems(c, ItemsOf(s, c, n).value, body)
  }

  ghost predicate Rejects(s: Script, c: Context, n: nat) {
    ItemsOf(s, c, n).Some? && RejectingItems(c, ItemsOf(s, c, n).value)
  }

  /** Arrivals `from` to `n` of one wait are quiet, and `n` is among the 17 that are awaited. */
  ghost predicate QuietUntil(s: Script, c: Context, from: nat, n: nat) {
    from <= n <= 16 && forall m: nat :: from <= m < n ==> Quiet(s, c, m)
  }

  lemma LookMeans(s: Script, c: Context, st: Shared, count: nat)
    ensures var step := OneFrame(c, ArrivalAt(s, c.attempt, count), st, count).step;
            && (step == More <==> Quiet(s, c, count) && count < MAX_EXTRA_FRAMES)
            && (forall body :: step == Stop(Some(Ok(body))) <==> AnswersAt(s, c, count, body))
            && (step == Stop(None) <==> Rejects(s, c, count))
  {
    var items := ItemsOf(s, c, count);
    hide Receive, PlainItems, ScanAll, QuietItems, AnsweringItems, RejectingItems;
    if items.Some? {
      var m := Receive(c.channel, ArrivalAt(s, c.attempt, count).data).value;
      WalkMeans(c, st.(salt := m.salt), items.value);
    }
  }

  /** How a read ends the call without a body: with the failure of the connection or of
      opening the frame, with that of the item that fails, or for good after sixteen drained
      frames and when the salt is still rejected on the fourth attempt. */
  lemma LookFails(s: Script, c: Context, st: Shared, count: nat)
    ensures var arrival := ArrivalAt(s, c.attempt, count);
            var step := OneFrame(c, arrival, st, count).step;
            && (arrival.NetworkFailed? ==> step == Stop(Some(Err(Network))))
            && (arrival.TimedOut? ==> step == Stop(Some(Err(Protocol))))
            && (arrival.OtherFailure? ==> step == Stop(Some(Err(arrival.error))))
            && (arrival.Received? && Receive(c.channel, arrival.data).Err? ==>
                  step == Stop(Some(Err(Receive(c.channel, arrival.data).error))))
    ensures ItemsOf(s, c, count).Some? ==>
              var items := ItemsOf(s, c, count).value;
              var step := OneFrame(c, ArrivalAt(s, c.attempt, count), st, count).step;
              && (QuietItems(c, items) && count >= 16 ==> step == Stop(Some(Err(Protocol))))
              && (Reached(c, items, |items|) && HasSaltRejection(items) && c.attempt >= 3 ==>
                    step == Stop(Some(Err(Protocol))))
              && (forall k, e :: 0 <= k < |items| && Reached(c, items, k) && FailsWith(c, items[k], e) ==>
                    step == Stop(Some(Err(e))))
  {
    hide Receive, PlainItems, ScanAll, QuietItems, Reached, HasSaltRejection, FailsWith, Answering, AsksAgain;
    if ItemsOf(s, c, count).Some? {
      var items := ItemsOf(s, c, count).value;
      var m := Receive(c.channel, ArrivalAt(s, c.attempt, count).data).value;
      var now := st.(salt := m.salt);
      WalkMeans(c, now, items);
      if Reached(c, items, |items|) {
        WalkOn(c, now, items, false);
      }
      forall k, e | 0 <= k < |items| && Reached(c, items, k) && FailsWith(c, items[k], e)
        ensures ScanAll(c, now, items, false).1 == Finished(Err(e))
      {
        WalkEnds(c, now, items, false, k);
      }
    }
  }

  /** A wait ends with a body exactly when some arrival answers and every earlier one is quiet,
      and asks for another attempt exactly when such an arrival rejects. */
  lemma {:induction false} WaitMeans(s: Script, c: Context, st: Shared, count: nat)
    requires count <= MAX_EXTRA_FRAMES
    ensures var w := Await(s, c, ArrivalAt(s, c.attempt, count), st, count);
            && (forall body :: w.result == Some(Ok(body)) <==>
                  exists n: nat :: QuietUntil(s, c, count, n) && AnswersAt(s, c, n, body))
            && (w.result == None <==> exists n: nat :: QuietUntil(s, c, count, n) && Rejects(s, c, n))
    decreases MAX_EXTRA_FRAMES - count
  {
    var arrival := ArrivalAt(s, c.attempt, count);
    LookMeans(s, c, st, count);
    hide OneFrame, Quiet, AnswersAt, Rejects;
    assert QuietUntil(s, c, count, count);
    var look := OneFrame(c, arrival, st, count);
    if look.step.More? {
      var next := count + 1;
      WaitMeans(s, c, look.st, next);
      forall n: nat | n > count ensures QuietUntil(s, c, count, n) <==> QuietUntil(s, c, next, n) {
      }
    } else {
      forall n: nat | QuietUntil(s, c, count, n) && n > count ensures Quiet(s, c, count) {
      }
    }
  }

  /** An arrival of attempt `i` answers with `body` after quiet ones. */
  ghost predicate AnswersIn(z: Setting, i: nat, body: seq<byte>) {
    exists n: nat :: QuietUntil(z.s, ContextAt(z, i), 0, n) && AnswersAt(z.s, ContextAt(z, i), n, body)
  }

  /** Attempt `i` gives way to the next: the connection was lost and came back, or an arrival
      rejects after quiet ones. */
  ghost predicate GivesWay(z: Setting, i: nat) {
    i < 3 && (LosesConnection(z, i) || RejectedIn(z, i))
  }

  predicate LosesConnection(z: Setting, i: nat) {
    (z.s.first(i).NetworkFailed? || z.s.first(i).TimedOut?) && z.s.reconnect(i).None?
  }

  ghost predicate RejectedIn(z: Setting, i: nat) {
    exists n: nat :: QuietUntil(z.s, ContextAt(z, i), 0, n) && Rejects(z.s, ContextAt(z, i), n)
  }

  lemma AttemptMeans(z: Setting, i: nat, st: Shared)
    requires i < MAX_ATTEMPTS
    ensures var t := OneAttempt(z, i, st);
            && (forall body :: t.result == Some(Ok(body)) <==> AnswersIn(z, i, body))
            && (t.result == None <==> GivesWay(z, i))
  {
    var c := ContextAt(z, i);
    assert c.attempt == i && ArrivalAt(z.s, i, 0) == z.s.first(i);
    NeedsArrival(z.s, c);
    OneAttemptLaw(z, i, st);
    hide Await, Quiet, AnswersAt, Rejects, GoodAttempt, ContextAt;
    if z.s.first(i).Received? {
      WaitMeans(z.s, c, st.(initialized := true), 0);
    }
  }

  /** Nothing answers or rejects when nothing arrived. */
  lemma NeedsArrival(s: Script, c: Context)
    ensures !ArrivalAt(s, c.attempt, 0).Received? ==>
              forall n: nat :: QuietUntil(s, c, 0, n) ==>
                !Rejects(s, c, n) && forall body :: !AnswersAt(s, c, n, body)
  {
    if !ArrivalAt(s, c.attempt, 0).Received? {
      assert ItemsOf(s, c, 0) == None && !Quiet(s, c, 0);
      hide ItemsOf, Quiet, QuietItems, RejectingItems, AnsweringItems;
      forall n: nat | QuietUntil(s, c, 0, n)
        ensures !Rejects(s, c, n) && forall body :: !AnswersAt(s, c, n, body)
      {
        assert n == 0;
      }
    }
  }

  ghost predicate AllGiveWay(z: Setting, from: nat, i: nat) {
    from <= i < 4 && forall j: nat :: from <= j < i ==> GivesWay(z, j)
  }

  /** Exactly when a call returns a body: some attempt is answered with it, and every earlier
      one gives way. */
  ghost predicate Returns(z: Setting, from: nat, body: seq<byte>) {
    exists i: nat :: AllGiveWay(z, from, i) && AnswersIn(z, i, body)
  }

  lemma {:induction false} ReturnsExactly(z: Setting, attempt: nat, st: Shared, body: seq<byte>)
    requires attempt < MAX_ATTEMPTS
    ensures RunFrom(z, attempt, st).result == Ok(body) <==> Returns(z, attempt, body)
    decreases MAX_ATTEMPTS - attempt
  {
    hide *;
    AttemptReturns(z, attempt, st, body);
    ResultStep(z, attempt, st);
    ReturnsStep(z, attempt, body);
    var t := OneAttempt(z, attempt, st);
    if t.result.None? {
      ReturnsExactly(z, attempt + 1, t.st, body);
    }
  }

  lemma AttemptReturns(z: Setting, attempt: nat, st: Shared, body: seq<byte>)
    requires attempt < MAX_ATTEMPTS
    ensures var t := OneAttempt(z, attempt, st);
            && (t.result == Some(Ok(body)) <==> AnswersIn(z, attempt, body))
            && (t.result == None <==> GivesWay(z, attempt))
  {
    hide *;
    AttemptMeans(z, attempt, st);
  }

  lemma ResultStep(z: Setting, attempt: nat, st: Shared)
    requires attempt < MAX_ATTEMPTS
    ensures var t := OneAttempt(z, attempt, st);
            if t.result.Some? then RunFrom(z, attempt, st).result == t.result.value
            else attempt + 1 < MAX_ATTEMPTS && RunFrom(z, attempt, st).result == RunFrom(z, attempt + 1, t.st).result
  {
    OneAttemptLaw(z, attempt, st);
    hide OneAttempt, GoodAttempt, HasAnswer, LastFrame;
  }

  lemma ReturnsStep(z: Setting, attempt: nat, body: seq<byte>)
    requires attempt < MAX_ATTEMPTS
    ensures Returns(z, attempt, body) <==>
            AnswersIn(z, attempt, body)
            || (attempt + 1 < MAX_ATTEMPTS && GivesWay(z, attempt) && Returns(z, attempt + 1, body))
  {
    hide GivesWay, AnswersIn;
    var next := attempt + 1;
    assert AllGiveWay(z, attempt, attempt);
    if i: nat :| AllGiveWay(z, attempt, i) && AnswersIn(z, i, body) {
      assert i > attempt ==> GivesWay(z, attempt) && AllGiveWay(z, next, i);
    }
    if next < MAX_ATTEMPTS && GivesWay(z, attempt) {
      if i: nat :| AllGiveWay(z, next, i) && AnswersIn(z, i, body) {
        assert AllGiveWay(z, attempt, i);
      }
    }
  }

  /** What is left of the wait, or of the run, leads to the same state and result, and its
      ids complete those received so far. */
  ghost predicate Continues(w: Wait, before: seq<u64>, now: seq<u64>, rest: Wait) {
    w.st == rest.st && w.result == rest.result && before + w.ids == now + rest.ids
  }

  ghost predicate Ends(run: Run, before: seq<u64>, now: seq<u64>, rest: Run) {
    run.st == rest.st && run.result == rest.result && before + run.ids == now + rest.ids
  }

  lemma AwaitStep(s: Script, c: Context, arrival: Arrival, st: Shared, count: nat, w: Wait,
                  before: seq<u64>, now: seq<u64>)
    requires count <= MAX_EXTRA_FRAMES && Continues(w, before, now, Await(s, c, arrival, st, count))
    ensures var look := OneFrame(c, arrival, st, count);
            if look.step.Stop? then
              w.result == look.step.result && w.st == look.st && before + w.ids == now + look.ids
            else
              count < MAX_EXTRA_FRAMES
              && Continues(w, before, now + look.ids, Await(s, c, s.later(c.attempt, count + 1), look.st, count + 1))
  {
    hide OneFrame;
    OneFrameLaw(c, arrival, st, count);
  }

  lemma RunStep(z: Setting, attempt: nat, st: Shared, run: Run, before: seq<u64>, now: seq<u64>)
    requires attempt < MAX_ATTEMPTS && Ends(run, before, now, RunFrom(z, attempt, st))
    ensures var t := OneAttempt(z, attempt, st);
            if t.result.Some? then
              run.result == t.result.value && run.st == t.st && before + run.ids == now + t.ids
            else
              attempt < 3 && Ends(run, before, now + t.ids, RunFrom(z, attempt + 1, t.st))
  {
    hide OneAttempt;
    OneAttemptLaw(z, attempt, st);
  }

  class SenderPool {
    var salt: u64
    var offset: i64
    var initialized: bool
    var pushed: seq<seq<byte>>
    const pump: bool
    const ackBatchMax: nat
    var pending: seq<u64>
    var batches: seq<seq<u64>>
    /** Every frame id received, in order. */
    ghost var received: seq<u64>

    ghost function State(): Shared
      reads this
    {
      Shared(salt, offset, initialized, pushed)
    }

    /** Every received id is acknowledged or waiting to be, once and in order. */
    ghost predicate Valid()
      reads this
    {
      Joined(batches) + pending == received && (pending == [] || |pending| < ackBatchMax)
    }

    constructor (salt: u64, pump: bool, ackBatchMax: nat)
      ensures Valid() && State() == Shared(salt, 0, false, []) && received == []
      ensures this.pump == pump && this.ackBatchMax == ackBatchMax
    {
      this.salt, offset, initialized, pushed, this.pump := salt, 0, false, [], pump;
      this.ackBatchMax := ackBatchMax;
      pending, batches, received := [], [], [];
    }

    /** `queue_ack`: a full batch is flushed at once. */
    method QueueAck(id: u64)
      requires Valid()
      modifies this`pending, this`batches, this`received
      ensures Valid() && received == old(received) + [id]
    {
      pending := pending + [id];
      received := received + [id];
      if |pending| >= ackBatchMax {
        FlushAcks();
      }
    }

    /** `flush_acks`: everything queued goes out as one message; an empty queue sends none. */
    method FlushAcks()
      requires Joined(batches) + pending == received
      modifies this`pending, this`batches
      ensures Valid() && pending == []
      ensures batches == if old(pending) == [] then old(batches) else old(batches) + [old(pending)]
    {
      if pending == [] { return; }
      assert (batches + [pending])[..|batches|] == batches;
      batches, pending := batches + [pending], [];
    }

    /** The walk over the items of one frame. */
    method ScanFrame(c: Context, items: seq<seq<byte>>) returns (v: FrameVerdict)
      requires c.pump == pump
      modifies this`salt, this`offset, this`initialized, this`pushed
      ensures (State(), v) == ScanAll(c, old(State()), items, false)
    {
      var resend := false;
      assert items[0..] == items;
      for i := 0 to |items|
        invariant ScanAll(c, State(), items[i..], resend) == ScanAll(c, old(State()), items, false)
      {
        var item := items[i];
        assert items[i..][0] == item && items[i..][1..] == items[i + 1..];
        if |item| < 4 { continue; }
        var ctor := CtorOf(item);
        if ctor == BAD_SERVER_SALT {
          Adopt(ctor, item);
          resend := true;
        } else if ctor == NEW_SERVER_SALT || ctor == NEW_SESSION_CREATED {
          Adopt(ctor, item);
        } else if ctor == BAD_MSG_NOTIFICATION {
          var bad := BadMsg(item);
          if bad.Err? { return Finished(Err(bad.error)); }
          var code := bad.value.1;
          if (code == 16 || code == 17) && c.attempt < 3 {
            offset := bad.value.0 / TWO_32 - c.now;
            return Restart;
          }
          return Finished(Err(ClassifyBadMsg(code)));
        } else if ctor == FUTURE_SALTS || ctor == MSGS_STATE_INFO {
          return Finished(Ok(item));
        } else if IsUpdate(ctor) {
          if pump {
            pushed := pushed + [item];
          }
        } else if ctor == RPC_RESULT {
          if |item| < 12 { return Finished(Err(Panic)); }
          if AnsweredId(item) == c.id {
            match ParseBody(c.unpack, item)
            case Answer(body) => return Finished(Ok(body));
            case Broken(e) => return Finished(Err(e));
            case RpcFailed(_, message) =>
              if c.notInited(message) && c.attempt < 3 {
                initialized := false;
                return Restart;
              }
              return Finished(Err(Rpc));
          }
        }
      }
      v := Waiting(resend);
    }

    /** One read: the id is queued for acknowledgement before the frame is looked at. */
    method TakeFrame(c: Context, arrival: Arrival, count: nat) returns (step: Step)
      requires Valid() && c.pump == pump
      modifies this
      ensures Valid()
      ensures var look := OneFrame(c, arrival, old(State()), count);
              step == look.step && State() == look.st && received == old(received) + look.ids
    {
      hide ScanAll, Joined, PlainItems, Receive;
      match arrival {
      case NetworkFailed => return Stop(Some(Err(Network)));
      case TimedOut => return Stop(Some(Err(Protocol)));
      case OtherFailure(e) => return Stop(Some(Err(e)));
      case Received(data) =>
        var message := Receive(c.channel, data);
        if message.Err? { return Stop(Some(Err(message.error))); }
        salt := message.value.salt;
        QueueAck(message.value.msgId);
        var items := SplitFrame(c.unpack, message.value.payload);
        if items.Err? { return Stop(Some(Err(items.error))); }
        var v := ScanFrame(c, items.value);
        match v {
        case Restart => return Stop(None);
        case Finished(result) => return Stop(Some(result));
        case Waiting(resend) =>
          if resend {
            return Stop(if c.attempt < 3 then None else Some(Err(Protocol)));
          }
          return if count >= MAX_EXTRA_FRAMES then Stop(Some(Err(Protocol))) else More;
        }
      }
    }

    /** The frame loop of one attempt: `None` asks for another attempt. */
    method AwaitAnswer(s: Script, c: Context, first: Arrival) returns (r: Option<Result<seq<byte>>>)
      requires Valid() && c.pump == pump
      modifies this
      ensures Valid()
      ensures var w := Await(s, c, first, old(State()), 0);
              r == w.result && State() == w.st && received == old(received) + w.ids
    {
      hide OneFrame, Joined, Valid, Receive;
      ghost var w, before := Await(s, c, first, State(), 0), received;
      var count := 0;
      var arrival := first;
      while true
        invariant count <= MAX_EXTRA_FRAMES && Valid()
        invariant Continues(w, before, received, Await(s, c, arrival, State(), count))
        decreases MAX_EXTRA_FRAMES - count
      {
        hide Await, Continues;
        AwaitStep(s, c, arrival, State(), count, w, before, received);
        var step := TakeFrame(c, arrival, count);
        if step.Stop? { return step.result; }
        count := count + 1;
        arrival := s.later(c.attempt, count);
      }
    }

    /** `reconnect_connection`: a fresh socket has no client context. */
    method Reconnect(s: Script, attempt: nat) returns (failed: Option<Failure>)
      modifies this`initialized
      ensures failed == s.reconnect(attempt)
      ensures initialized == (old(initialized) && failed.Some?)
    {
      failed := s.reconnect(attempt);
      if failed.None? {
        initialized := false;
      }
    }

    /** One pass of the attempt loop: `None` goes on to the next. */
    method TryOnce(z: Setting, attempt: nat) returns (r: Option<Result<seq<byte>>>)
      requires Valid() && z.pump == pump
      modifies this
      ensures Valid()
      ensures var t := OneAttempt(z, attempt, old(State()));
              r == t.result && State() == t.st && received == old(received) + t.ids
    {
      hide Await, Joined;
      var arrival := z.s.first(attempt);
      initialized := true;
      if arrival.NetworkFailed? || arrival.TimedOut? {
        var e := if arrival.NetworkFailed? then Network else Transport;
        if attempt >= 3 { return Some(Err(e)); }
        var failed := Reconnect(z.s, attempt);
        return if failed.Some? then Some(Err(failed.value)) else None;
      }
      if arrival.OtherFailure? { return Some(Err(arrival.error)); }
      r := AwaitAnswer(z.s, ContextAt(z, attempt), arrival);
    }

    /** `send_rpc` on one connection: at most four attempts; the loop is never left by its
        guard. */
    method SendRpc(z: Setting) returns (r: Result<seq<byte>>)
      requires Valid() && z.pump == pump
      modifies this
      ensures Valid()
      ensures var run := RunFrom(z, 0, old(State()));
              r == run.result && State() == run.st && received == old(received) + run.ids
      ensures forall body :: r == Ok(body) <==> Returns(z, 0, body)
    {
      hide OneAttempt, Joined, Valid, Returns;
      forall body ensures RunFrom(z, 0, State()).result == Ok(body) <==> Returns(z, 0, body) {
        ReturnsExactly(z, 0, State(), body);
      }
      r := Err(Panic);
      ghost var run, before := RunFrom(z, 0, State()), received;
      var attempt := 0;
      while attempt < MAX_ATTEMPTS
        invariant attempt < MAX_ATTEMPTS && Valid()
        invariant Ends(run, before, received, RunFrom(z, attempt, State()))
        decreases MAX_ATTEMPTS - attempt
      {
        hide RunFrom, Ends;
        RunStep(z, attempt, State(), run, before, received);
        var outcome := TryOnce(z, attempt);
        if outcome.Some? { return outcome.value; }
        attempt := attempt + 1;
      }
      assert false;
    }

    /** `adopt_service_state`. */
    method Adopt(ctor: u32, item: seq<byte>)
      modifies this`salt
      ensures State() == Adopted(old(State()), ctor, item)
    {
      var announced := AnnouncedSalt(ctor, item);
      if announced.Some? {
        salt := announced.value;
      }
    }
  }

  function Joined(batches: seq<seq<u64>>): seq<u64> {
    if batches == [] then [] else Joined(batches[..|batches| - 1]) + batches[|batches| - 1]
  }
}
