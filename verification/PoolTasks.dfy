/** Tokio tasks of `src/pool.rs` over one shared session: RPC callers, raw senders (the salt
    refresher), the ack flusher and the keepalives, interleaved at every lock acquisition
    and release. The network, the clock and the frames are arbitrary. */
module PoolTasks {
  import opened Wrappers
  import opened Bytes
  import opened NumberTheory
  import opened Session

  // ---- locks ----

  datatype Lock = Permit(conn: nat) | Codec(conn: nat) | SessionLock | IndexLock | AckLock | UpdateLock | FailoverLock

  /** The lock order. Nothing is acquired while a lock of the last rank is held. */
  function Rank(l: Lock): (r: nat)
    ensures r <= 2
  {
    match l
    case Permit(_) => 0
    case Codec(_) => 1
    case _ => 2
  }

  // ---- tasks ----

  datatype Kind = Caller | Raw | Flusher | Keepalive

  /** Each stage works under one lock, named by `LockOf`, or under none. */
  datatype Stage =
    | Rest                        // asleep, or between two calls
    | Index | Permitting          // pick a connection, take its permit
    | Alloc | Encrypt             // message id and sequence number; encryption under the read lock
    | Exchange | Read | Ping      // send and first read; a further read; the keepalive's exchange
    | Decrypt | Queue | Scan      // open the frame, queue its ack, look at its items
    | Adopt | Push                // adopt session state, forward an update
    | Take | AllocAck | AckIndex | Write   // flush acks: take, number, pick a connection, write
    | FailoverRead | FailoverWrite | Swap  // reconnect

  /** `inside` says that the lock of the stage is held. `frame` is the set of message ids
      the `rpc_result` items of the last frame name. */
  datatype Task = Task(
    kind: Kind, stage: Stage, inside: bool,
    conn: nat, other: nat,
    id: u64, attempt: nat, call: nat, frame: set<u64>)

  function LockOf(t: Task): Option<Lock> {
    match t.stage
    case Rest => None
    case Scan => None
    case Ping => None
    case Index => Some(IndexLock)
    case AckIndex => Some(IndexLock)
    case Permitting => Some(Permit(t.conn))
    case Exchange => Some(Codec(t.conn))
    case Read => Some(Codec(t.conn))
    case Swap => Some(Codec(t.conn))
    case Write => Some(Codec(t.other))
    case Queue => Some(AckLock)
    case Take => Some(AckLock)
    case Push => Some(UpdateLock)
    case FailoverRead => Some(FailoverLock)
    case FailoverWrite => Some(FailoverLock)
    case _ => Some(SessionLock)
  }

  /** What a task holds before it takes the lock of its stage. An RPC keeps its permit from
      the moment it got it; a keepalive keeps permit and codec through its exchange. */
  function Base(t: Task): set<Lock> {
    match t.kind
    case Caller => if t.stage in {Rest, Index, Permitting} then {} else {Permit(t.conn)}
    case Raw => if t.stage == Exchange then {Permit(t.conn)} else {}
    case Flusher => {}
    case Keepalive =>
      if t.stage == Exchange then {Permit(t.conn)}
      else if t.stage in {Alloc, Ping, Decrypt} then {Permit(t.conn), Codec(t.conn)}
      else {}
  }

  function Held(t: Task): set<Lock> {
    Base(t) + if t.inside && LockOf(t).Some? then {LockOf(t).value} else {}
  }

  /** A keepalive only tries the permit and the codec; it does not wait for them. */
  predicate Tries(t: Task) {
    t.kind == Keepalive && t.stage in {Permitting, Exchange}
  }

  function Wants(t: Task): Option<Lock> {
    if t.inside || Tries(t) then None else LockOf(t)
  }

  // ---- the state ----

  /** One allocation: the id, the sequence number, and who asked. */
  datatype Entry = Entry(id: u64, seqNo: i32, content: bool, task: nat, call: nat, attempt: nat)

  datatype Acceptance = Acceptance(task: nat, call: nat, attempt: nat, id: u64)

  datatype State = State(
    connections: nat,
    nextIndex: nat,
    last: u64,
    content: nat,
    log: seq<Entry>,
    accepted: seq<Acceptance>,
    tasks: seq<Task>)

  predicate HoldsLock(s: State, i: nat, l: Lock) {
    i < |s.tasks| && l in Held(s.tasks[i])
  }

  predicate Free(s: State, l: Lock) {
    forall i :: 0 <= i < |s.tasks| ==> !HoldsLock(s, i, l)
  }

  predicate Init(s: State) {
    && s.connections > 0 && s.nextIndex < s.connections && s.last == 0 && s.content == 0 && s.log == []
        && s.accepted == []
    && forall i :: 0 <= i < |s.tasks| ==> s.tasks[i].stage == Rest && !s.tasks[i].inside
  }

  // ---- control flow ----

  /** Where a task may go when it leaves a stage. Failures may cut every exchange short. */
  predicate Follows(k: Kind, from: Stage, to: Stage) {
    match k
    case Caller =>
      (match from
       case Rest => to == Index
       case Index => to == Permitting
       case Permitting => to == Alloc
       case Alloc => to == Exchange
       case Exchange => to in {Decrypt, FailoverRead, Rest}
       case Decrypt => to in {Queue, Rest}
       case Queue => to in {Take, Scan}
       case Take => to in {AllocAck, Scan}
       case AllocAck => to == AckIndex
       case AckIndex => to == Write
       case Write => to == Scan
       case Scan => to in {Adopt, Push, Alloc, Read, Rest}
       case Adopt => to in {Scan, Alloc}
       case Push => to == Scan
       case Read => to in {Decrypt, Rest}
       case FailoverRead => to == FailoverWrite
       case FailoverWrite => to in {FailoverRead, Swap, Rest}
       case Swap => to == Alloc
       case _ => false)
    case Raw =>
      (match from
       case Rest => to == Alloc
       case Alloc => to == Encrypt
       case Encrypt => to == Index
       case Index => to == Permitting
       case Permitting => to == Exchange
       case Exchange => to in {Decrypt, FailoverRead, Rest}
       case FailoverRead => to == FailoverWrite
       case FailoverWrite => to in {FailoverRead, Swap, Rest}
       case Swap => to == Permitting
       case Decrypt => to in {Adopt, Rest}
       case Adopt => to == Rest
       case _ => false)
    case Flusher =>
      (match from
       case Rest => to == Take
       case Take => to in {AllocAck, Rest}
       case AllocAck => to == AckIndex
       case AckIndex => to == Write
       case Write => to == Rest
       case _ => false)
    case Keepalive =>
      (match from
       case Rest => to == Permitting
       case Permitting => to == Exchange
       case Exchange => to == Alloc
       case Alloc => to == Ping
       case Ping => to in {Decrypt, FailoverRead, Rest}
       case Decrypt => to == Rest
       case FailoverRead => to == FailoverWrite
       case FailoverWrite => to in {FailoverRead, Swap, Rest}
       case Swap => to == Rest
       case _ => false)
  }

  /** The permit acquired in `Permitting` is not let go when that stage ends: it becomes part
      of the base of the next one, and so does the codec of a keepalive. */
  lemma BaseGrowsFromHeld(t: Task, to: Stage)
    requires Follows(t.kind, t.stage, to) && (LockOf(t).Some? ==> t.inside)
    ensures Base(t.(stage := to, inside := false)) <= Held(t)
  {
  }

  predicate Allocates(t: Task) {
    t.stage == Alloc || t.stage == AllocAck
  }

  predicate Picks(t: Task) {
    t.stage == Index || t.stage == AckIndex
  }

  /** Stages that take a frame off the connection. */
  predicate Reads(t: Task) {
    (t.kind == Caller && t.stage in {Exchange, Read}) || (t.kind == Raw && t.stage == Exchange)
    || (t.kind == Keepalive && t.stage == Ping)
  }

  const MAX_ATTEMPTS: nat := 4

  /** A caller heads for another attempt: at once, or after reconnecting. */
  predicate SendsAgain(t: Task, to: Stage) {
    t.kind == Caller && (to == Alloc || (t.stage == Exchange && to == FailoverRead))
  }

  /** `next_seq_no` after `before` content messages, as an `i32`. */
  function SeqNo(before: nat, content: bool): i32 {
    AsI32(2 * before + if content then 1 else 0)
  }

  // ---- steps ----

  datatype Step =
    | Acquire
    | GiveUp                                   // a keepalive's try fails, a caller's wait for the permit times out
    | Leave(to: Stage, clock: u64, frame: set<u64>)
    | Accept                                   // an RPC returns the result in its frame

  predicate Steps(s: State, s': State, i: nat, step: Step) {
    i < |s.tasks| &&
    var t := s.tasks[i];
    match step
    case Acquire =>
      !t.inside && LockOf(t).Some? && Free(s, LockOf(t).value) && s' == s.(tasks := s.tasks[i := t.(inside := true)])
    case GiveUp =>
      && !t.inside && ((Tries(t) && !Free(s, LockOf(t).value)) || (t.kind == Caller && t.stage == Permitting))
      && s' == s.(tasks := s.tasks[i := t.(stage := Rest)])
    case Leave(to, clock, frame) =>
      && Follows(t.kind, t.stage, to) && (LockOf(t).Some? ==> t.inside)
      && (SendsAgain(t, to) ==> t.attempt < MAX_ATTEMPTS)
      && clock % 4 == 0 && clock <= (TWO_32 - 1) * TWO_32 + 4
      && s' == Left(s, i, to, clock, frame)
    case Accept =>
      && t.kind == Caller && t.stage == Scan && t.id in t.frame
      && s' == s.(tasks := s.tasks[i := t.(stage := Rest)],
                  accepted := s.accepted + [Acceptance(i, t.call, t.attempt, t.id)])
  }

  /** The state after task `i` left its stage. */
  function Left(s: State, i: nat, to: Stage, clock: u64, frame: set<u64>): State
    requires i < |s.tasks|
  {
    var t := s.tasks[i];
    if Allocates(t) then
      var content := t.stage == Alloc;
      var id := NextId(s.last, clock);
      var moved := t.(stage := to, inside := false,
                      id := if content then id else t.id,
                      attempt := if content && t.kind == Caller then t.attempt + 1 else t.attempt);
      s.(last := id,
         content := if content then s.content + 1 else s.content,
         log := s.log + [Entry(id, SeqNo(s.content, content), content, i, t.call, t.attempt)],
         tasks := s.tasks[i := moved])
    else if Picks(t) then
      var moved := if t.stage == Index then t.(stage := to, inside := false, conn := s.nextIndex)
                   else t.(stage := to, inside := false, other := s.nextIndex);
      s.(nextIndex := if s.connections == 0 then 0 else (s.nextIndex + 1) % s.connections, tasks := s.tasks[i := moved])
    else if t.stage == Rest then
      s.(tasks := s.tasks[i := t.(stage := to, inside := false, attempt := 0, call := t.call + 1)])
    else
      s.(tasks := s.tasks[i := t.(stage := to, inside := false, frame := if Reads(t) then frame else t.frame)])
  }

  // ---- the lock order ----

  /** Whatever a task holds ranks strictly below what it waits for. */
  lemma OrderObeyed(t: Task, l: Lock)
    requires Wants(t).Some? && l in Held(t)
    ensures Rank(l) < Rank(Wants(t).value)
  {
  }

  predicate WaitsFor(s: State, i: nat, j: nat) {
    i < |s.tasks| && j < |s.tasks| && Wants(s.tasks[i]).Some? && HoldsLock(s, j, Wants(s.tasks[i]).value)
  }

  lemma WaitRises(s: State, i: nat, j: nat)
    requires WaitsFor(s, i, j) && Wants(s.tasks[j]).Some?
    ensures Rank(Wants(s.tasks[i]).value) < Rank(Wants(s.tasks[j]).value)
  {
    OrderObeyed(s.tasks[j], Wants(s.tasks[i]).value);
  }

  /** A chain of waits, each task waiting for the next. */
  predicate Chain(s: State, ts: seq<nat>) {
    forall k :: 0 < k < |ts| ==> Link(s, ts, k)
  }

  predicate Link(s: State, ts: seq<nat>, k: nat)
    requires 0 < k < |ts|
  {
    WaitsFor(s, ts[k - 1], ts[k])
  }

  lemma {:induction false} ChainRises(s: State, ts: seq<nat>)
    requires |ts| >= 2 && Chain(s, ts)
    requires ts[0] < |s.tasks| && Wants(s.tasks[ts[0]]).Some?
    requires ts[|ts| - 1] < |s.tasks| && Wants(s.tasks[ts[|ts| - 1]]).Some?
    ensures Rank(Wants(s.tasks[ts[0]]).value) < Rank(Wants(s.tasks[ts[|ts| - 1]]).value)
  {
    var n := |ts|;
    assert Link(s, ts, n - 1);
    WaitRises(s, ts[n - 2], ts[n - 1]);
    if n > 2 {
      var shorter := ts[..n - 1];
      forall k | 0 < k < n - 1 ensures Link(s, shorter, k) {
        assert Link(s, ts, k);
      }
      ChainRises(s, shorter);
    }
  }

  /** No circular wait: a chain of waits never comes back to where it started. */
  lemma NoCircularWait(s: State, ts: seq<nat>)
    requires |ts| >= 2 && Chain(s, ts)
    ensures ts[0] != ts[|ts| - 1]
  {
    assert Link(s, ts, 1);
    if ts[0] == ts[|ts| - 1] {
      ChainRises(s, ts);
    }
  }

  predicate Blocked(s: State, i: nat) {
    i < |s.tasks| && Wants(s.tasks[i]).Some? && !Free(s, Wants(s.tasks[i]).value)
  }

  /** From any task, following the waits leads over at most three others to one that waits
      for nothing that is held. */
  lemma {:induction false} SomeoneMoves(s: State, i: nat) returns (ts: seq<nat>)
    requires i < |s.tasks|
    ensures 1 <= |ts| <= 4 - WaitRank(s, i) && ts[0] == i && Chain(s, ts)
    ensures ts[|ts| - 1] < |s.tasks| && !Blocked(s, ts[|ts| - 1])
    decreases 3 - WaitRank(s, i)
  {
    ts := [i];
    if Blocked(s, i) {
      var l := Wants(s.tasks[i]).value;
      var h: nat :| h < |s.tasks| && HoldsLock(s, h, l);
      if Wants(s.tasks[h]).Some? {
        WaitRises(s, i, h);
      }
      var rest := SomeoneMoves(s, h);
      ts := [i] + rest;
      forall k | 0 < k < |ts| ensures Link(s, ts, k) {
        assert k > 1 ==> Link(s, rest, k - 1);
      }
    }
  }

  /** The rank of the lock a task waits for, 3 when it waits for none. */
  function WaitRank(s: State, i: nat): (r: nat)
    requires i < |s.tasks|
    ensures r <= 3
  {
    match Wants(s.tasks[i])
    case None => 3
    case Some(l) => Rank(l)
  }

  // ---- no deadlock ----

  function StagesOf(k: Kind): set<Stage> {
    match k
    case Caller =>
      {Rest, Index, Permitting, Alloc, Exchange, Decrypt, Queue, Take, AllocAck, AckIndex, Write, Scan, Adopt, Push,
       Read,
       FailoverRead, FailoverWrite, Swap}
    case Raw =>
      {Rest, Alloc, Encrypt, Index, Permitting, Exchange, FailoverRead, FailoverWrite, Swap, Decrypt, Adopt}
    case Flusher => {Rest, Take, AllocAck, AckIndex, Write}
    case Keepalive => {Rest, Permitting, Exchange, Alloc, Ping, Decrypt, FailoverRead, FailoverWrite, Swap}
  }

  /** The stage is one of the task's own, and a caller that must send again still may. */
  predicate Placed(t: Task) {
    && t.stage in StagesOf(t.kind) && (t.inside ==> LockOf(t).Some?)
    && (t.kind == Caller && t.stage in {Index, Permitting, Alloc, FailoverRead, FailoverWrite, Swap} ==>
          t.attempt < MAX_ATTEMPTS)
    && (t.kind == Caller && t.stage in {Index, Permitting} ==> t.attempt == 0)
  }

  predicate AllPlaced(s: State) {
    forall i :: 0 <= i < |s.tasks| ==> Placed(s.tasks[i])
  }

  lemma PlacedKept(s: State, s': State, i: nat, step: Step)
    requires AllPlaced(s) && Steps(s, s', i, step)
    ensures AllPlaced(s')
  {
    MovedPlaced(s, s', i, step);
    hide Placed, Steps;
  }

  lemma MovedPlaced(s: State, s': State, i: nat, step: Step)
    requires Steps(s, s', i, step) && Placed(s.tasks[i])
    ensures i < |s'.tasks| && s'.tasks == s.tasks[i := s'.tasks[i]] && Placed(s'.tasks[i])
  {
    if step.Leave? {
      StagePlaced(s.tasks[i], step.to);
      hide Follows, StagesOf;
    }
  }

  lemma StagePlaced(t: Task, to: Stage)
    requires Placed(t) && Follows(t.kind, t.stage, to)
    ensures to in StagesOf(t.kind)
    ensures t.kind == Caller && to in {FailoverRead, FailoverWrite, Swap} && !SendsAgain(t, to) ==>
              t.stage in {FailoverRead, FailoverWrite}
    ensures t.kind == Caller && to == Index ==> t.stage == Rest
    ensures t.kind == Caller && to == Permitting ==> t.stage == Index
    ensures t.kind == Caller && Allocates(t) ==> to in {Exchange, AckIndex}
  {
  }

  /** Where a task can always go next. */
  function NextStage(t: Task): Stage {
    match t.stage
    case Rest =>
      if t.kind == Caller then Index else if t.kind == Raw then Alloc else if t.kind == Flusher then Take
        else Permitting
    case Index => Permitting
    case Permitting => if t.kind == Caller then Alloc else Exchange
    case Alloc => if t.kind == Raw then Encrypt else if t.kind == Keepalive then Ping else Exchange
    case Encrypt => Index
    case Exchange => if t.kind == Keepalive then Alloc else Rest
    case Take => if t.kind == Caller then Scan else Rest
    case AllocAck => AckIndex
    case AckIndex => Write
    case Write => if t.kind == Caller then Scan else Rest
    case Queue => Scan
    case Adopt => if t.kind == Caller then Scan else Rest
    case Push => Scan
    case FailoverRead => FailoverWrite
    case FailoverWrite => Swap
    case Swap => if t.kind == Caller then Alloc else if t.kind == Raw then Permitting else Rest
    case _ => Rest
  }

  ghost predicate Enabled(s: State, i: nat) {
    exists s': State, step: Step :: Steps(s, s', i, step)
  }

  /** A task that is not blocked has a step: it takes its lock, gives up trying for it, or
      leaves its stage. */
  lemma UnblockedMoves(s: State, i: nat)
    requires i < |s.tasks| && Placed(s.tasks[i]) && !Blocked(s, i)
    ensures Enabled(s, i)
  {
    var t := s.tasks[i];
    if t.inside || LockOf(t).None? {
      NextFollows(t);
      assert Steps(s, Left(s, i, NextStage(t), 0, {}), i, Leave(NextStage(t), 0, {}));
    } else if Free(s, LockOf(t).value) {
      assert Steps(s, s.(tasks := s.tasks[i := t.(inside := true)]), i, Acquire);
    } else {
      assert Steps(s, s.(tasks := s.tasks[i := t.(stage := Rest)]), i, GiveUp);
    }
  }

  lemma NextFollows(t: Task)
    requires Placed(t)
    ensures Follows(t.kind, t.stage, NextStage(t)) && (SendsAgain(t, NextStage(t)) ==> t.attempt < MAX_ATTEMPTS)
  {
  }

  // ---- what every reachable state satisfies ----

  /** No lock is held by two tasks. */
  predicate Exclusive(s: State) {
    forall i, j :: 0 <= i < |s.tasks| && 0 <= j < |s.tasks| && i != j ==> Held(s.tasks[i]) !! Held(s.tasks[j])
  }

  function ContentBefore(log: seq<Entry>): nat {
    if log == [] then 0
    else ContentBefore(log[..|log| - 1]) + if log[|log| - 1].content then 1 else 0
  }

  /** Ids divide by four; sequence numbers are twice the content messages allocated before,
      plus the content bit; ids rise as long as the 64-bit budget lasts. */
  predicate LogLaw(s: State) {
    && (forall k :: 0 <= k < |s.log| ==> Numbered(s.log, k))
    && s.content == ContentBefore(s.log)
    && s.last == (if s.log == [] then 0 else s.log[|s.log| - 1].id)
    && (|s.log| <= ID_BUDGET ==> IdsRise(s.log) && s.last <= (TWO_32 - 1) * TWO_32 + 4 + 4 * |s.log|)
  }

  predicate IdsRise(log: seq<Entry>) {
    forall j, k :: 0 <= j < k < |log| ==> log[j].id < log[k].id
  }

  /** A caller between the allocation of its current id and the end of its call. */
  predicate Live(t: Task) {
    t.kind == Caller && t.stage !in {Rest, Index, Permitting, Alloc}
  }

  /** Entry `k` is the latest allocation of a live caller. */
  predicate OwnEntry(s: State, i: nat, k: nat) {
    i < |s.tasks| && k < |s.log| && s.log[k].content && s.log[k].task == i
    && s.log[k].id == s.tasks[i].id && s.log[k].call == s.tasks[i].call && s.log[k].attempt + 1 == s.tasks[i].attempt
  }

  ghost predicate LiveOwned(s: State) {
    forall i :: 0 <= i < |s.tasks| && Live(s.tasks[i]) ==> exists k :: OwnEntry(s, i, k)
  }

  /** Acceptance `a` names an id that was allocated for that very attempt. */
  predicate Allocated(s: State, a: Acceptance, k: nat) {
    k < |s.log| && s.log[k].content && s.log[k].task == a.task
    && s.log[k].id == a.id && s.log[k].call == a.call && s.log[k].attempt + 1 == a.attempt
  }

  ghost predicate HasEntry(s: State, a: Acceptance) {
    exists k :: Allocated(s, a, k)
  }

  ghost predicate AcceptedOwned(s: State) {
    forall n :: 0 <= n < |s.accepted| ==> HasEntry(s, s.accepted[n])
  }

  /** No id is accepted twice, and none that a live caller still waits for was accepted. */
  predicate AcceptedOnce(s: State) {
    && (forall m, n :: 0 <= m < n < |s.accepted| ==> s.accepted[m].id != s.accepted[n].id)
    && (forall i, n :: 0 <= i < |s.tasks| && Live(s.tasks[i]) && 0 <= n < |s.accepted| ==>
        s.accepted[n].id != s.tasks[i].id)
  }

  ghost predicate Inv(s: State) {
    && Exclusive(s) && LogLaw(s) && LiveOwned(s) && AcceptedOwned(s)
    && (|s.log| <= ID_BUDGET ==> AcceptedOnce(s))
    && (forall i :: 0 <= i < |s.tasks| ==> WithinBudget(s.tasks[i]))
  }

  /** At most four attempts a call. */
  predicate WithinBudget(t: Task) {
    t.attempt <= MAX_ATTEMPTS && (t.kind == Caller && t.stage == Alloc ==> t.attempt < MAX_ATTEMPTS)
  }

  // ---- the invariant is kept ----

  lemma ShrinksExclusive(s: State, i: nat, t: Task, s': State)
    requires Exclusive(s) && i < |s.tasks| && Held(t) <= Held(s.tasks[i]) && s'.tasks == s.tasks[i := t]
    ensures Exclusive(s')
  {
    hide Held;
    forall a, b | 0 <= a < |s'.tasks| && 0 <= b < |s'.tasks| && a != b ensures Held(s'.tasks[a]) !! Held(s'.tasks[b]) {
      assert Held(s.tasks[a]) !! Held(s.tasks[b]);
    }
  }

  lemma GrowsExclusive(s: State, i: nat, l: Lock, t: Task, s': State)
    requires Exclusive(s) && i < |s.tasks| && Free(s, l) && Held(t) <= Held(s.tasks[i]) + {l}
             && s'.tasks == s.tasks[i := t]
    ensures Exclusive(s')
  {
    hide Held;
    forall a, b | 0 <= a < |s'.tasks| && 0 <= b < |s'.tasks| && a != b ensures Held(s'.tasks[a]) !! Held(s'.tasks[b]) {
      assert Held(s.tasks[a]) !! Held(s.tasks[b]);
      assert !HoldsLock(s, a, l) && !HoldsLock(s, b, l);
    }
  }

  /** Whoever moves holds what it held, less what it released, more what it acquired. */
  lemma Moved(s: State, s': State, i: nat, step: Step)
    requires Steps(s, s', i, step)
    ensures i < |s'.tasks| && s'.tasks == s.tasks[i := s'.tasks[i]]
    ensures step.Acquire? ==> LockOf(s.tasks[i]).Some? && Free(s, LockOf(s.tasks[i]).value)
                              && Held(s'.tasks[i]) <= Held(s.tasks[i]) + {LockOf(s.tasks[i]).value}
    ensures !step.Acquire? ==> Held(s'.tasks[i]) <= Held(s.tasks[i])
  {
    var t := s.tasks[i];
    match step
    case Acquire =>
    case GiveUp =>
    case Accept =>
    case Leave(to, clock, frame) =>
      BaseGrowsFromHeld(t, to);
      SameBase(t, s'.tasks[i], to);
  }

  /** Leaving a stage changes the connection only while nothing is held on it. */
  lemma SameBase(t: Task, moved: Task, to: Stage)
    requires Follows(t.kind, t.stage, to) && moved.kind == t.kind && moved.stage == to && !moved.inside
    requires t.stage != Index ==> moved.conn == t.conn
    ensures Held(moved) == Base(t.(stage := to, inside := false)) || Held(moved) == {}
  {
  }

  lemma ExclusiveKept(s: State, s': State, i: nat, step: Step)
    requires Exclusive(s) && Steps(s, s', i, step)
    ensures Exclusive(s')
  {
    Moved(s, s', i, step);
    if step.Acquire? {
      GrowsExclusive(s, i, LockOf(s.tasks[i]).value, s'.tasks[i], s');
    } else {
      ShrinksExclusive(s, i, s'.tasks[i], s');
    }
  }

  /** What one allocation adds to the log. */
  predicate Logged(s: State, s': State, i: nat) {
    i < |s.tasks| && |s'.log| == |s.log| + 1 && s'.log[..|s.log|] == s.log &&
    var t, e := s.tasks[i], s'.log[|s.log|];
    var content := t.stage == Alloc;
    && e == Entry(e.id, SeqNo(s.content, content), content, i, t.call, t.attempt)
    && (exists clock: u64 :: clock % 4 == 0 && clock <= (TWO_32 - 1) * TWO_32 + 4 && e.id == NextId(s.last, clock))
    && s'.last == e.id && s'.content == s.content + (if content then 1 else 0)
  }

  lemma LogMoves(s: State, s': State, i: nat, step: Step)
    requires Steps(s, s', i, step)
    ensures if step.Leave? && Allocates(s.tasks[i]) then Logged(s, s', i)
              else s'.log == s.log && s'.last == s.last && s'.content == s.content
  {
    if step.Leave? && Allocates(s.tasks[i]) {
      assert s'.log[|s.log|].id == NextId(s.last, step.clock);
    }
  }

  predicate Numbered(log: seq<Entry>, k: nat)
    requires k < |log|
  {
    && log[k].id % 4 == 0
    && log[k].seqNo == SeqNo(ContentBefore(log[..k]), log[k].content)
  }

  lemma NumbersKept(log: seq<Entry>, e: Entry)
    requires forall k :: 0 <= k < |log| ==> Numbered(log, k)
    requires e.id % 4 == 0 && e.seqNo == SeqNo(ContentBefore(log), e.content)
    ensures forall k :: 0 <= k < |log + [e]| ==> Numbered(log + [e], k)
    ensures ContentBefore(log + [e]) == ContentBefore(log) + if e.content then 1 else 0
  {
    var more := log + [e];
    assert more[..|log|] == log;
    forall k | 0 <= k < |more| ensures Numbered(more, k) {
      assert k < |log| ==> Numbered(log, k) && more[..k] == log[..k];
    }
  }

  lemma RiseKept(log: seq<Entry>, e: Entry)
    requires IdsRise(log) && (log != [] ==> log[|log| - 1].id < e.id)
    ensures IdsRise(log + [e]) && forall k :: 0 <= k < |log| ==> log[k].id < e.id
  {
  }

  lemma LogLawKept(s: State, s': State, i: nat)
    requires LogLaw(s) && Logged(s, s', i)
    ensures LogLaw(s')
    ensures |s'.log| <= ID_BUDGET ==> forall k :: 0 <= k < |s.log| ==> s.log[k].id < s'.log[|s.log|].id
  {
    hide ContentBefore, IdsRise, NextId, Numbered, SeqNo;
    var n, e := |s.log|, s'.log[|s.log|];
    var clock: u64 :| clock % 4 == 0 && clock <= (TWO_32 - 1) * TWO_32 + 4 && e.id == NextId(s.last, clock);
    LastDivides(s);
    assert s'.log == s.log + [e];
    NumbersKept(s.log, e);
    if |s'.log| <= ID_BUDGET {
      NoWrap(s.last, clock, n);
      RiseKept(s.log, e);
    }
  }

  lemma LastDivides(s: State)
    requires LogLaw(s)
    ensures s.last % 4 == 0
    ensures forall clock: u64 :: clock % 4 == 0 ==> NextId(s.last, clock) % 4 == 0
  {
    hide NextId, SeqNo, ContentBefore, IdsRise;
    if s.log != [] {
      assert Numbered(s.log, |s.log| - 1);
    }
    forall clock: u64 | clock % 4 == 0 ensures NextId(s.last, clock) % 4 == 0 {
      NextDivides(s.last, clock);
    }
  }

  lemma NextDivides(last: u64, clock: u64)
    requires last % 4 == 0 && clock % 4 == 0
    ensures NextId(last, clock) % 4 == 0
  {
    if clock <= last && last + 4 < TWO_64 {
      SmallMod(last + 4, TWO_64);
    } else if clock <= last {
      assert last + 4 == TWO_64;
    }
  }

  lemma NoWrap(last: u64, clock: u64, n: nat)
    requires n + 1 <= ID_BUDGET && last <= (TWO_32 - 1) * TWO_32 + 4 + 4 * n && clock <= (TWO_32 - 1) * TWO_32 + 4
    ensures last < NextId(last, clock) <= (TWO_32 - 1) * TWO_32 + 4 + 4 * (n + 1)
  {
  }

  /** How the moving task's identity changes: a live caller keeps id, call and attempt, and
      becomes live only by allocating a content message. */
  lemma MovedIdentity(s: State, s': State, i: nat, step: Step)
    requires Steps(s, s', i, step)
    ensures i < |s.tasks| && i < |s'.tasks| && (WithinBudget(s.tasks[i]) ==> WithinBudget(s'.tasks[i]))
    ensures var t, t' := s.tasks[i], s'.tasks[i];
            Live(t') ==>
              if step.Leave? && t.stage == Alloc then
                |s'.log| == |s.log| + 1 && OwnEntry(s', i, |s.log|)
              else Live(t) && t'.id == t.id && t'.call == t.call && t'.attempt == t.attempt
  {
  }

  lemma LiveOwnedKept(s: State, s': State, i: nat, step: Step)
    requires LiveOwned(s) && Steps(s, s', i, step)
    requires s.log <= s'.log
    ensures LiveOwned(s')
  {
    Moved(s, s', i, step);
    MovedIdentity(s, s', i, step);
    hide Steps, Held, Live;
    forall a | 0 <= a < |s'.tasks| && Live(s'.tasks[a]) ensures exists k :: OwnEntry(s', a, k) {
      if a == i && step.Leave? && s.tasks[i].stage == Alloc {
        assert OwnEntry(s', i, |s.log|);
      } else {
        assert Live(s.tasks[a]);
        var k :| OwnEntry(s, a, k);
        assert OwnEntry(s', a, k);
      }
    }
  }

  lemma AcceptedMoves(s: State, s': State, i: nat, step: Step)
    requires Steps(s, s', i, step)
    ensures i < |s.tasks| && i < |s'.tasks|
    ensures if step.Accept? then Live(s.tasks[i])
                                 && s'.accepted == s.accepted
                                     + [Acceptance(i, s.tasks[i].call, s.tasks[i].attempt, s.tasks[i].id)]
                                 && !Live(s'.tasks[i]) && s.tasks[i].id in s.tasks[i].frame
            else s'.accepted == s.accepted
  {
  }

  lemma AcceptedOwnedKept(s: State, s': State, i: nat, step: Step)
    requires LiveOwned(s) && AcceptedOwned(s) && Steps(s, s', i, step) && s.log <= s'.log
    ensures AcceptedOwned(s')
  {
    AcceptedMoves(s, s', i, step);
    hide Steps, Live;
    forall n | 0 <= n < |s'.accepted| ensures HasEntry(s', s'.accepted[n]) {
      if n < |s.accepted| {
        assert HasEntry(s, s.accepted[n]);
        var k :| Allocated(s, s.accepted[n], k);
        assert Allocated(s', s'.accepted[n], k);
      } else {
        assert Live(s.tasks[i]);
        var k :| OwnEntry(s, i, k);
        assert Allocated(s', s'.accepted[n], k);
      }
    }
  }

  /** Two live callers wait for different ids. */
  lemma LiveDistinct(s: State, a: nat, b: nat)
    requires LiveOwned(s) && IdsRise(s.log)
    requires a < |s.tasks| && b < |s.tasks| && a != b && Live(s.tasks[a]) && Live(s.tasks[b])
    ensures s.tasks[a].id != s.tasks[b].id
  {
    var j: nat :| OwnEntry(s, a, j);
    var k: nat :| OwnEntry(s, b, k);
    if j < k {
      assert s.log[j].id < s.log[k].id;
    } else if k < j {
      assert s.log[k].id < s.log[j].id;
    }
  }

  lemma AcceptedOnceKept(s: State, s': State, i: nat, step: Step)
    requires Inv(s) && Steps(s, s', i, step) && LogLaw(s') && |s'.log| <= ID_BUDGET && s.log <= s'.log
    requires forall k :: 0 <= k < |s.log| < |s'.log| ==> s.log[k].id < s'.log[|s.log|].id
    ensures AcceptedOnce(s')
  {
    Moved(s, s', i, step);
    MovedIdentity(s, s', i, step);
    AcceptedMoves(s, s', i, step);
    hide Steps, Live, Held, LogLaw, Exclusive;
    forall m, n | 0 <= m < n < |s'.accepted| ensures s'.accepted[m].id != s'.accepted[n].id {
      if n == |s.accepted| {
        assert s.accepted[m].id != s.tasks[i].id;
      }
    }
    forall a, n | 0 <= a < |s'.tasks| && Live(s'.tasks[a]) && 0 <= n < |s'.accepted|
      ensures s'.accepted[n].id != s'.tasks[a].id
    {
      AcceptedApart(s, s', i, step, a, n);
    }
  }

  lemma AcceptedApart(s: State, s': State, i: nat, step: Step, a: nat, n: nat)
    requires Inv(s) && Steps(s, s', i, step) && |s'.log| <= ID_BUDGET && s.log <= s'.log
    requires forall k :: 0 <= k < |s.log| < |s'.log| ==> s.log[k].id < s'.log[|s.log|].id
    requires a < |s'.tasks| && Live(s'.tasks[a]) && n < |s'.accepted|
    ensures s'.accepted[n].id != s'.tasks[a].id
  {
    Moved(s, s', i, step);
    MovedIdentity(s, s', i, step);
    AcceptedMoves(s, s', i, step);
    var rise := IdsRise(s.log);
    assert rise;
    hide Steps, Live, Held, LogLaw, Exclusive, IdsRise;
    if n < |s.accepted| {
      if a == i && step.Leave? && s.tasks[i].stage == Alloc {
        assert HasEntry(s, s.accepted[n]);
        var k :| Allocated(s, s.accepted[n], k);
        assert OwnEntry(s', i, |s.log|);
      } else {
        assert Live(s.tasks[a]);
      }
    } else {
      assert a != i && Live(s.tasks[a]);
      LiveDistinct(s, i, a);
    }
  }

  lemma InvKept(s: State, s': State, i: nat, step: Step)
    requires Inv(s) && Steps(s, s', i, step)
    ensures Inv(s')
  {
    hide *;
    TakeApart(s);
    ExclusiveKept(s, s', i, step);
    LogKept(s, s', i, step);
    LiveOwnedKept(s, s', i, step);
    AcceptedOwnedKept(s, s', i, step);
    if |s'.log| <= ID_BUDGET {
      AcceptedOnceKept(s, s', i, step);
    }
    BudgetKept(s, s', i, step);
    PutTogether(s');
  }

  lemma TakeApart(s: State)
    requires Inv(s)
    ensures Exclusive(s) && LogLaw(s) && LiveOwned(s) && AcceptedOwned(s)
  {
  }

  lemma PutTogether(s: State)
    requires Exclusive(s) && LogLaw(s) && LiveOwned(s) && AcceptedOwned(s)
    requires |s.log| <= ID_BUDGET ==> AcceptedOnce(s)
    requires forall i :: 0 <= i < |s.tasks| ==> WithinBudget(s.tasks[i])
    ensures Inv(s)
  {
  }

  lemma LogKept(s: State, s': State, i: nat, step: Step)
    requires LogLaw(s) && Steps(s, s', i, step)
    ensures LogLaw(s') && s.log <= s'.log
    ensures |s'.log| <= ID_BUDGET ==> forall k :: 0 <= k < |s.log| < |s'.log| ==> s.log[k].id < s'.log[|s.log|].id
  {
    LogMoves(s, s', i, step);
    if step.Leave? && i < |s.tasks| && Allocates(s.tasks[i]) {
      LogLawKept(s, s', i);
    }
  }

  lemma BudgetKept(s: State, s': State, i: nat, step: Step)
    requires Inv(s) && Steps(s, s', i, step)
    ensures forall a :: 0 <= a < |s'.tasks| ==> WithinBudget(s'.tasks[a])
  {
    Moved(s, s', i, step);
    MovedIdentity(s, s', i, step);
    hide Steps, WithinBudget;
  }

  lemma InvInit(s: State)
    requires Init(s) && forall i :: 0 <= i < |s.tasks| ==> s.tasks[i].attempt == 0
    ensures Inv(s)
  {
  }

  // ---- runs ----

  ghost predicate Moves(s: State, s': State) {
    exists i: nat, step: Step :: Steps(s, s', i, step)
  }

  ghost predicate Run(states: seq<State>) {
    && states != [] && Init(states[0]) && (forall i :: 0 <= i < |states[0].tasks| ==> states[0].tasks[i].attempt == 0)
    && forall k :: 0 < k < |states| ==> Moves(states[k - 1], states[k])
  }

  lemma {:induction false} Reachable(states: seq<State>, k: nat)
    requires Run(states) && k < |states|
    ensures Inv(states[k])
  {
    if k == 0 {
      InvInit(states[0]);
    } else {
      Reachable(states, k - 1);
      assert Moves(states[k - 1], states[k]);
      var i: nat, step: Step :| Steps(states[k - 1], states[k], i, step);
      InvKept(states[k - 1], states[k], i, step);
    }
  }

  /** In every run and at every moment: ids divide by four and rise within the budget, and
      each sequence number is twice the content messages allocated before plus the content
      bit, which an `i32` can hold for the first 2^30 of them. */
  lemma NumbersInEveryRun(states: seq<State>, k: nat, n: nat)
    requires Run(states) && k < |states| && n < |states[k].log|
    ensures var log := states[k].log;
            && log[n].id % 4 == 0
            && log[n].seqNo == SeqNo(ContentBefore(log[..n]), log[n].content)
            && (log[n].seqNo == 2 * ContentBefore(log[..n]) + (if log[n].content then 1 else 0)
                <==> ContentBefore(log[..n]) < 0x4000_0000)
            && (|log| <= ID_BUDGET ==> forall m :: 0 <= m < n ==> log[m].id < log[n].id)
  {
    Reachable(states, k);
    assert Numbered(states[k].log, n);
  }

  lemma {:induction false} PlacedInRun(states: seq<State>, k: nat)
    requires Run(states) && k < |states|
    ensures AllPlaced(states[k])
  {
    if k > 0 {
      PlacedInRun(states, k - 1);
      assert Moves(states[k - 1], states[k]);
      var i: nat, step: Step :| Steps(states[k - 1], states[k], i, step);
      PlacedKept(states[k - 1], states[k], i, step);
    }
  }

  /** No deadlock: at every moment of every run, following the waits from any task leads to
      one that can take a step. */
  lemma NoDeadlock(states: seq<State>, k: nat, i: nat) returns (ts: seq<nat>)
    requires Run(states) && k < |states| && i < |states[k].tasks|
    ensures 1 <= |ts| <= 4 && ts[0] == i && Chain(states[k], ts) && Enabled(states[k], ts[|ts| - 1])
  {
    PlacedInRun(states, k);
    hide *;
    ts := SomeoneMoves(states[k], i);
    PlacedAt(states[k], ts[|ts| - 1]);
    UnblockedMoves(states[k], ts[|ts| - 1]);
  }

  lemma PlacedAt(s: State, i: nat)
    requires AllPlaced(s) && i < |s.tasks|
    ensures Placed(s.tasks[i])
  {
  }

  /** In every run, whoever takes a frame off a connection holds that connection's permit,
      and nobody else does. */
  lemma ReadsByHolderOnly(states: seq<State>, k: nat, i: nat, j: nat)
    requires Run(states) && k < |states| && i < |states[k].tasks| && j < |states[k].tasks|
    requires Reads(states[k].tasks[i])
    ensures HoldsLock(states[k], i, Permit(states[k].tasks[i].conn))
    ensures HoldsLock(states[k], j, Permit(states[k].tasks[i].conn)) ==> i == j
  {
    Reachable(states, k);
    assert i != j ==> Held(states[k].tasks[i]) !! Held(states[k].tasks[j]);
  }

  /** In every run an `rpc_result` is accepted by at most one call, and only by the attempt
      for which the id it names was allocated. */
  lemma AcceptedByItsAttemptOnly(states: seq<State>, k: nat, n: nat) returns (e: nat)
    requires Run(states) && k < |states| && n < |states[k].accepted|
    ensures Allocated(states[k], states[k].accepted[n], e)
    ensures |states[k].log| <= ID_BUDGET ==>
              forall m :: 0 <= m < |states[k].accepted| && states[k].accepted[m].id == states[k].accepted[n].id ==>
                m == n
  {
    Reachable(states, k);
    assert HasEntry(states[k], states[k].accepted[n]);
    e :| Allocated(states[k], states[k].accepted[n], e);
  }
}
