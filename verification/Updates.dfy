/** `src/updates.rs`: the dispatcher that keeps account updates in counter order. The
    channel and the handlers are logs; the ghost histories account for every update. */
module Updates {
  import opened Wrappers
  import opened Bytes

  const MAX_BUFFER: nat := 10_000

  // ---- updates and the account cursor ----

  datatype Kind = NewMessage | EditMessage | DeleteMessages | ReadHistoryInbox | ReadHistoryOutbox

  datatype Update =
    | Pts(kind: Kind, pts: i32, count: i32, body: nat)
    | ChannelTooLong(channel: i64, channelPts: Option<i32>)
    | Plain(body: nat)

  datatype Envelope =
    | List(updates: seq<Update>, date: i32)
    | Short(update: Update, date: i32)
    | Combined(updates: seq<Update>, date: i32, seqNo: i32)
    | ShortSentMessage(pts: i32, count: i32, date: i32)

  /** `saturating_add`: the exact sum, or the end of the range it leaves. */
  function SaturatingAdd(a: i32, b: i32): (r: i32)
    ensures -TWO_31 <= a + b < TWO_31 ==> r == a + b
    ensures a + b >= TWO_31 ==> r == 0x7FFF_FFFF
    ensures a + b < -TWO_31 ==> r == -0x8000_0000
  {
    if a + b >= TWO_31 then TWO_31 - 1 else if a + b < -TWO_31 then -TWO_31 else a + b
  }

  /** The part of the dispatcher that decides what happens to an update. */
  datatype Core = Core(cursor: i32, gap: bool, buffer: seq<Update>)

  datatype Fate = Delivered | Stale | Held | Overflow

  predicate Behind(cursor: i32, u: Update)
    requires u.Pts?
  {
    u.pts <= cursor
  }

  predicate Next(cursor: i32, u: Update)
    requires u.Pts?
  {
    cursor < u.pts == SaturatingAdd(cursor, u.count)
  }

  function FateOf(c: Core, u: Update, max: nat): Fate {
    if !u.Pts? then Delivered
    else if Behind(c.cursor, u) then Stale
    else if Next(c.cursor, u) then Delivered
    else if |c.buffer| < max then Held
    else Overflow
  }

  function After(c: Core, u: Update, max: nat): Core {
    match FateOf(c, u, max)
    case Delivered => if u.Pts? then c.(cursor := u.pts) else c
    case Stale => c
    case Held => c.(gap := true, buffer := c.buffer + [u])
    case Overflow => c.(gap := true)
  }

  // ---- the books ----

  datatype PtsState = PtsState(pts: i32, seqNo: i32, date: i32, gapPending: bool)

  /** Everything one dispatched update can change. */
  datatype Ledger = Ledger(
    core: Core,
    channel: seq<Update>,
    stale: seq<Update>,
    overflow: seq<Update>,
    since: seq<Update>,
    flagged: set<i64>,
    channelPts: map<i64, PtsState>)

  function If(b: bool, u: Update): seq<Update> {
    if b then [u] else []
  }

  function Settled(l: Ledger, u: Update): Ledger {
    var fate := FateOf(l.core, u, MAX_BUFFER);
    Ledger(
      After(l.core, u, MAX_BUFFER),
      l.channel + If(fate == Delivered, u),
      l.stale + If(fate == Stale, u),
      l.overflow + If(fate == Overflow, u),
      l.since + If(fate == Delivered && u.Pts?, u),
      l.flagged + (if u.ChannelTooLong? then {u.channel} else {}),
      if u.ChannelTooLong? && u.channelPts.Some?
      then l.channelPts[u.channel := PtsState(u.channelPts.value, 0, 0, false)] else l.channelPts)
  }

  /** A list dispatched one by one. */
  function SettledAll(l: Ledger, us: seq<Update>): Ledger
    decreases |us|
  {
    if us == [] then l else SettledAll(Settled(l, us[0]), us[1..])
  }

  // ---- the counter line ----

  predicate Numbered(us: seq<Update>) {
    forall u :: u in us ==> u.Pts?
  }

  function CursorAfter(base: i32, since: seq<Update>): i32
    requires Numbered(since)
  {
    if since == [] then base else since[|since| - 1].pts
  }

  /** Every update of a run was the next one when it was delivered. */
  predicate InOrder(base: i32, since: seq<Update>)
    requires Numbered(since)
  {
    forall i :: 0 <= i < |since| ==> Next(Before(base, since, i), since[i])
  }

  /** The cursor when update `i` of a run was delivered. */
  function Before(base: i32, since: seq<Update>, i: nat): i32
    requires Numbered(since) && i <= |since|
  {
    if i == 0 then base else since[i - 1].pts
  }

  /** The cursor is where the delivered updates since the last reset led it. */
  predicate Tracked(base: i32, since: seq<Update>, cursor: i32) {
    Numbered(since) && InOrder(base, since) && cursor == CursorAfter(base, since)
  }

  lemma TrackedNext(base: i32, since: seq<Update>, cursor: i32, u: Update)
    requires Tracked(base, since, cursor) && u.Pts? && Next(cursor, u)
    ensures Tracked(base, since + [u], u.pts)
  {
    hide Next;
    var more := since + [u];
    assert Numbered(more);
    forall i | 0 <= i < |more| ensures Next(Before(base, more, i), more[i]) {
      BeforeMore(base, since, u, i);
      if i < |since| {
        assert Next(Before(base, since, i), since[i]);
      }
    }
  }

  lemma BeforeMore(base: i32, since: seq<Update>, u: Update, i: nat)
    requires Numbered(since) && u.Pts? && i <= |since|
    ensures Numbered(since + [u]) && Before(base, since + [u], i) == Before(base, since, i)
    ensures Before(base, since, |since|) == CursorAfter(base, since)
  {
  }

  /** The flag says whether anything waits; the buffer is bounded. */
  predicate Waiting(c: Core) {
    (c.gap <==> c.buffer != []) && |c.buffer| <= MAX_BUFFER && Numbered(c.buffer)
  }

  /** Conservation: what was offered was delivered, dropped as stale, buffered, dropped for
      lack of room, or is still to be dispatched. */
  ghost predicate Accounted(offered: seq<Update>, delivered: seq<Update>, stale: seq<Update>, buffered: seq<Update>,
                            overflow: seq<Update>, extra: multiset<Update>) {
    multiset(offered) == multiset(delivered) + multiset(stale) + multiset(buffered) + multiset(overflow) + extra
  }

  lemma AccountedFor(offered: seq<Update>, delivered: seq<Update>, stale: seq<Update>, buffered: seq<Update>,
                     overflow: seq<Update>, extra: multiset<Update>, u: Update)
    requires Accounted(offered, delivered, stale, buffered, overflow, extra + multiset{u})
    ensures Accounted(offered, delivered + [u], stale, buffered, overflow, extra)
    ensures Accounted(offered, delivered, stale + [u], buffered, overflow, extra)
    ensures Accounted(offered, delivered, stale, buffered + [u], overflow, extra)
    ensures Accounted(offered, delivered, stale, buffered, overflow + [u], extra)
  {
  }

  /** Each handler holds what was delivered since it joined, in order. */
  ghost predicate Subscribed(channel: seq<Update>, handlers: seq<seq<Update>>, joined: seq<nat>) {
    |joined| == |handlers|
    && forall h :: 0 <= h < |handlers| ==> joined[h] <= |channel| && handlers[h] == channel[joined[h]..]
  }

  /** The queue lists the flagged channels, each once. */
  ghost predicate Queued(queue: seq<i64>, flagged: set<i64>) {
    && (forall i, j :: 0 <= i < j < |queue| ==> queue[i] != queue[j])
    && (forall c :: c in queue <==> c in flagged)
  }

  /** The books balance while the updates `extra` have been offered but not yet dispatched. */
  ghost predicate Consistent(b: Ledger, offered: seq<Update>, base: i32, extra: multiset<Update>) {
    && Waiting(b.core)
    && Accounted(offered, b.channel, b.stale, b.core.buffer, b.overflow, extra)
    && Tracked(base, b.since, b.core.cursor)
    && (forall c :: c in b.channelPts ==> !b.channelPts[c].gapPending)
  }

  lemma SettledAccounted(b: Ledger, offered: seq<Update>, extra: multiset<Update>, u: Update)
    requires Accounted(offered, b.channel, b.stale, b.core.buffer, b.overflow, extra + multiset{u})
    ensures var next := Settled(b, u);
            Accounted(offered, next.channel, next.stale, next.core.buffer, next.overflow, extra)
  {
    AccountedFor(offered, b.channel, b.stale, b.core.buffer, b.overflow, extra, u);
    SettledCases(b, u);
    OneBook(FateOf(b.core, u, MAX_BUFFER), u);
    hide Accounted, Settled, After, FateOf;
    var next := Settled(b, u);
    match FateOf(b.core, u, MAX_BUFFER)
    case Delivered => assert next.stale == b.stale && next.core.buffer == b.core.buffer && next.overflow == b.overflow;
    case Stale => assert next.channel == b.channel && next.core.buffer == b.core.buffer && next.overflow == b.overflow;
    case Held => assert next.channel == b.channel && next.stale == b.stale && next.overflow == b.overflow;
    case Overflow => assert next.channel == b.channel && next.stale == b.stale && next.core.buffer == b.core.buffer;
  }

  lemma SettledTracked(b: Ledger, base: i32, u: Update)
    requires Tracked(base, b.since, b.core.cursor)
    ensures var next := Settled(b, u); Tracked(base, next.since, next.core.cursor)
  {
    if u.Pts? && FateOf(b.core, u, MAX_BUFFER) == Delivered {
      TrackedNext(base, b.since, b.core.cursor, u);
    }
    hide Tracked;
    assert b.since + [] == b.since;
  }

  lemma SettledChannels(b: Ledger, u: Update)
    requires forall c :: c in b.channelPts ==> !b.channelPts[c].gapPending
    ensures forall c :: c in Settled(b, u).channelPts ==> !Settled(b, u).channelPts[c].gapPending
  {
  }

  lemma SettledConsistent(b: Ledger, offered: seq<Update>, base: i32, extra: multiset<Update>, u: Update)
    requires Consistent(b, offered, base, extra + multiset{u})
    ensures Consistent(Settled(b, u), offered, base, extra)
  {
    SettledCases(b, u);
    SettledAccounted(b, offered, extra, u);
    SettledTracked(b, base, u);
    SettledChannels(b, u);
    hide Tracked, Accounted, Waiting, Settled, After, FateOf;
  }

  /** Every update ends up in exactly one book. */
  lemma OneBook(fate: Fate, u: Update)
    ensures fate == Delivered ==>
              If(fate == Delivered, u) == [u]
                  && If(fate == Stale, u) == If(fate == Held, u) == If(fate == Overflow, u) == []
    ensures fate == Stale ==>
              If(fate == Stale, u) == [u]
                  && If(fate == Delivered, u) == If(fate == Held, u) == If(fate == Overflow, u) == []
    ensures fate == Held ==>
              If(fate == Held, u) == [u]
                  && If(fate == Delivered, u) == If(fate == Stale, u) == If(fate == Overflow, u) == []
    ensures fate == Overflow ==>
              If(fate == Overflow, u) == [u]
                  && If(fate == Delivered, u) == If(fate == Stale, u) == If(fate == Held, u) == []
  {
  }

  lemma SettledCases(l: Ledger, u: Update)
    ensures var fate, next := FateOf(l.core, u, MAX_BUFFER), Settled(l, u);
            && next.core == After(l.core, u, MAX_BUFFER)
            && next.channel == l.channel + If(fate == Delivered, u)
            && next.stale == l.stale + If(fate == Stale, u)
            && next.overflow == l.overflow + If(fate == Overflow, u)
            && (u.Pts? ==>
                  next.since == l.since + If(fate == Delivered, u) && next.flagged == l.flagged
                      && next.channelPts == l.channelPts
                  && next.core.buffer == l.core.buffer + If(fate == Held, u))
            && (!u.Pts? ==> fate == Delivered && next.core == l.core && next.since == l.since)
            && (u.Plain? ==> next.flagged == l.flagged && next.channelPts == l.channelPts)
            && (u.ChannelTooLong? ==>
                  next.flagged == l.flagged + {u.channel}
                  && next.channelPts == if u.channelPts.Some?
                                        then l.channelPts[u.channel := PtsState(u.channelPts.value, 0, 0, false)]
                                          else l.channelPts)
    ensures Waiting(l.core) ==> Waiting(Settled(l, u).core)
  {
  }

  /** Ahead of the cursor, but not by its own count: something before it is missing. */
  predicate Gapped(cursor: i32, u: Update) {
    u.Pts? && cursor < u.pts != SaturatingAdd(cursor, u.count)
  }

  /** What one update changes: dropped at or below the cursor, delivered when it follows the
      cursor or carries no counter, and otherwise kept while there is room. */
  lemma SettledMeans(l: Ledger, u: Update)
    ensures var next := Settled(l, u);
            && (u.Pts? && u.pts <= l.core.cursor ==> next == l.(stale := l.stale + [u]))
            && (u.Pts? && l.core.cursor < u.pts == SaturatingAdd(l.core.cursor, u.count) ==>
                  next == l.(core := l.core.(cursor := u.pts), channel := l.channel + [u], since := l.since + [u]))
            && (Gapped(l.core.cursor, u) && |l.core.buffer| < 10_000 ==>
                  next == l.(core := Core(l.core.cursor, true, l.core.buffer + [u])))
            && (Gapped(l.core.cursor, u) && |l.core.buffer| >= 10_000 ==>
                  next == l.(core := l.core.(gap := true), overflow := l.overflow + [u]))
            && (u.Plain? ==> next == l.(channel := l.channel + [u]))
            && (u.ChannelTooLong? ==>
                  next == l.(channel := l.channel + [u], flagged := l.flagged + {u.channel},
                             channelPts := next.channelPts)
                  && (u.channelPts.None? ==> next.channelPts == l.channelPts)
                  && (u.channelPts.Some? ==>
                        next.channelPts == l.channelPts[u.channel := PtsState(u.channelPts.value, 0, 0, false)]))
  {
    SettledCases(l, u);
    hide Settled;
    var next := Settled(l, u);
    assert next.channel + [] == next.channel && l.stale + [] == l.stale && l.overflow + [] == l.overflow;
    assert l.channel + [] == l.channel && l.since + [] == l.since && l.core.buffer + [] == l.core.buffer;
  }

  class UpdateDispatcher {
    var pts: i32
    var seqNo: i32
    var date: i32
    var gapPending: bool
    var qts: i32
    var channelPts: map<i64, PtsState>
    var channelsTooLong: seq<i64>
    var channel: seq<Update>
    var handlers: seq<seq<Update>>
    var buffered: seq<Update>
    const maxBuffer: nat

    /** Everything offered so far, and what became of what was not delivered. */
    ghost var offered: seq<Update>
    ghost var stale: seq<Update>
    ghost var overflow: seq<Update>
    /** The cursor at the last reset and the numbered updates delivered since. */
    ghost var base: i32
    ghost var since: seq<Update>
    /** How much of the channel log each handler missed. */
    ghost var joined: seq<nat>
    /** The channels flagged since the queue was last taken. */
    ghost var flagged: set<i64>

    ghost function State(): Core
      reads this
    {
      Core(pts, gapPending, buffered)
    }

    ghost function Books(): Ledger
      reads this
    {
      Ledger(State(), channel, stale, overflow, since, flagged, channelPts)
    }

    /** The invariant while the updates `extra` have been offered but not yet dispatched. */
    ghost predicate Inv(extra: multiset<Update>)
      reads this
    {
      && maxBuffer == MAX_BUFFER
      && Consistent(Books(), offered, base, extra)
      && Subscribed(channel, handlers, joined)
      && Queued(channelsTooLong, flagged)
    }

    ghost predicate Valid()
      reads this
    {
      Inv(multiset{})
    }

    /** What a numbered update changes: at or below the cursor it is dropped, next in line it
        is delivered whatever waits, and beyond a gap it is kept while there is room. */
    twostate predicate Placed(u: Update, accepted: bool)
      requires u.Pts?
      reads this`pts, this`buffered, this`overflow, this`stale, this`gapPending
    {
      if u.pts <= old(pts) then
        !accepted && stale == old(stale) + [u] && unchanged(`pts, `buffered, `overflow, `gapPending)
      else if u.pts == SaturatingAdd(old(pts), u.count) then
        accepted && pts == u.pts && unchanged(`buffered, `overflow, `stale, `gapPending)
      else
        && !accepted && gapPending && unchanged(`pts, `stale)
        && if |old(buffered)| < 10_000 then buffered == old(buffered) + [u] && unchanged(`overflow)
           else overflow == old(overflow) + [u] && unchanged(`buffered)
    }

    /** Any other update leaves cursor and buffer alone; one that flags a channel queues it
        once and stores its counter. */
    twostate predicate ChannelQueued(u: Update)
      reads this`pts, this`buffered, this`overflow, this`stale, this`gapPending, this`channelsTooLong, this`channelPts
    {
      && unchanged(`pts, `buffered, `overflow, `stale, `gapPending)
      && (u.ChannelTooLong? ==>
            && channelsTooLong == old(channelsTooLong)
                                  + (if u.channel in old(channelsTooLong) then [] else [u.channel])
            && channelPts == if u.channelPts.None? then old(channelPts)
                             else old(channelPts)[u.channel := PtsState(u.channelPts.value, 0, 0, false)])
    }

    constructor ()
      ensures Valid() && pts == 0 && channel == [] && buffered == [] && offered == [] && handlers == []
    {
      pts, seqNo, date, gapPending, qts := 0, 0, 0, false, 0;
      channelPts, channelsTooLong, channel, handlers, buffered := map[], [], [], [], [];
      maxBuffer := MAX_BUFFER;
      offered, stale, overflow, base, since, joined, flagged := [], [], [], 0, [], [], {};
    }

    /** `on_update`: a handler sees what is delivered from now on. */
    method OnUpdate()
      requires Valid()
      modifies this`handlers, this`joined
      ensures Valid() && handlers == old(handlers) + [[]] && joined == old(joined) + [|channel|]
    {
      handlers, joined := handlers + [[]], joined + [|channel|];
    }

    /** `init_state`. The buffer is left alone. */
    method InitState(newPts: i32, newSeq: i32, newDate: i32)
      requires Valid()
      modifies this`pts, this`seqNo, this`date, this`base, this`since
      ensures Valid() && State() == old(State()).(cursor := newPts) && seqNo == newSeq && date == newDate
      ensures base == newPts && since == []
    {
      Reset(newPts);
      seqNo, date := newSeq, newDate;
    }

    /** The cursor is set from outside: the count of deliveries starts over. */
    method Reset(newPts: i32)
      requires Valid()
      modifies this`pts, this`base, this`since
      ensures Valid() && Books() == old(Books()).(core := old(State()).(cursor := newPts), since := [])
              && base == newPts
    {
      ResetConsistent(Books(), offered, base, newPts);
      hide Consistent, Subscribed, Queued;
      pts, base, since := newPts, newPts, [];
    }

    /** `init_channel_pts`. */
    method InitChannelPts(id: i64, value: i32)
      modifies this`channelPts
      ensures channelPts == old(channelPts)[id := PtsState(value, 0, 0, false)]
    {
      channelPts := channelPts[id := PtsState(value, 0, 0, false)];
    }

    /** `advance_channel_pts`. */
    method AdvanceChannelPts(id: i64, value: i32)
      requires Valid()
      modifies this`channelPts
      ensures Valid() && id in channelPts && channelPts[id].pts == value && !channelPts[id].gapPending
      ensures forall c :: c != id ==>
                (c in channelPts <==> c in old(channelPts)) && (c in channelPts ==> channelPts[c] == old(channelPts)[c])
    {
      if id in channelPts {
        channelPts := channelPts[id := channelPts[id].(pts := value, gapPending := false)];
      } else {
        channelPts := channelPts[id := PtsState(value, 0, 0, false)];
      }
    }

    /** `take_channels_too_long`. */
    method TakeChannelsTooLong() returns (ids: seq<i64>)
      requires Valid()
      modifies this`channelsTooLong, this`flagged
      ensures Valid() && ids == old(channelsTooLong) && channelsTooLong == [] && flagged == {}
      ensures forall c :: c in ids <==> c in old(flagged)
    {
      ids, channelsTooLong, flagged := channelsTooLong, [], {};
    }

    /** `dispatch_one`. */
    method DispatchOne(u: Update, ghost extra: multiset<Update>) returns (dispatched: seq<Update>)
      requires Inv(extra + multiset{u})
      modifies this`pts, this`gapPending, this`buffered, this`channel, this`handlers, this`channelsTooLong,
          this`channelPts
      modifies this`stale, this`overflow, this`since, this`flagged
      ensures Inv(extra)
      ensures Books() == Settled(old(Books()), u)
      ensures dispatched == If(FateOf(old(State()), u, MAX_BUFFER) == Delivered, u)
      ensures channel == old(channel) + dispatched
      ensures if u.Pts? then Placed(u, dispatched == [u]) else ChannelQueued(u) && dispatched == [u]
    {
      SettledConsistent(Books(), offered, base, extra, u);
      hide Consistent, Subscribed, Queued, Settled, After, FateOf, If, Placed, ChannelQueued;
      if u.Pts? {
        dispatched := DispatchNumbered(u);
      } else {
        dispatched := DispatchOther(u);
      }
    }

    method DispatchNumbered(u: Update) returns (dispatched: seq<Update>)
      requires u.Pts? && maxBuffer == MAX_BUFFER && Subscribed(channel, handlers, joined)
      modifies this`pts, this`gapPending, this`buffered, this`channel, this`handlers, this`stale, this`overflow,
          this`since
      ensures Subscribed(channel, handlers, joined)
      ensures Books() == Settled(old(Books()), u)
      ensures dispatched == If(FateOf(old(State()), u, MAX_BUFFER) == Delivered, u)
      ensures Placed(u, dispatched == [u]) && channel == old(channel) + dispatched
    {
      SettledCases(Books(), u);
      hide Subscribed, Settled, After, FateOf, Gapped, SaturatingAdd;
      var accepted := TakeNumbered(u);
      if !accepted { return []; }
      Publish(u);
      dispatched := [u];
    }

    method DispatchOther(u: Update) returns (dispatched: seq<Update>)
      requires !u.Pts? && Subscribed(channel, handlers, joined) && Queued(channelsTooLong, flagged)
      modifies this`channel, this`handlers, this`channelsTooLong, this`channelPts, this`flagged
      ensures Subscribed(channel, handlers, joined) && Queued(channelsTooLong, flagged)
      ensures Books() == Settled(old(Books()), u)
      ensures dispatched == If(FateOf(old(State()), u, MAX_BUFFER) == Delivered, u)
      ensures ChannelQueued(u) && dispatched == [u] && channel == old(channel) + dispatched
    {
      SettledCases(Books(), u);
      hide Subscribed, Queued, Settled, After, FateOf;
      if u.ChannelTooLong? {
        FlagChannel(u.channel, u.channelPts);
      }
      Publish(u);
      dispatched := [u];
    }

    /** A numbered update: stale, next in line, or ahead of a gap. */
    method TakeNumbered(u: Update) returns (accepted: bool)
      requires u.Pts? && maxBuffer == MAX_BUFFER
      modifies this`pts, this`gapPending, this`buffered, this`stale, this`overflow, this`since
      ensures var fate := FateOf(old(State()), u, MAX_BUFFER);
              && accepted == (fate == Delivered)
              && State() == After(old(State()), u, MAX_BUFFER)
              && stale == old(stale) + If(fate == Stale, u)
              && overflow == old(overflow) + If(fate == Overflow, u)
              && since == old(since) + If(fate == Delivered, u)
      ensures Placed(u, accepted)
    {
      if u.pts <= pts {
        stale := stale + [u];
        return false;
      }
      if u.pts == SaturatingAdd(pts, u.count) {
        pts, since := u.pts, since + [u];
        return true;
      }
      gapPending := true;
      if |buffered| < maxBuffer {
        buffered := buffered + [u];
      } else {
        overflow := overflow + [u];
      }
      return false;
    }

    method FlagChannel(id: i64, value: Option<i32>)
      requires Queued(channelsTooLong, flagged)
      modifies this`channelsTooLong, this`channelPts, this`flagged
      ensures Queued(channelsTooLong, flagged) && flagged == old(flagged) + {id}
      ensures channelsTooLong == old(channelsTooLong) + (if id in old(channelsTooLong) then [] else [id])
      ensures channelPts == if value.Some? then old(channelPts)[id := PtsState(value.value, 0, 0, false)]
                else old(channelPts)
    {
      if id !in channelsTooLong {
        channelsTooLong := channelsTooLong + [id];
      }
      flagged := flagged + {id};
      if value.Some? {
        InitChannelPts(id, value.value);
      }
    }

    /** The channel first, then every registered handler. */
    method Publish(u: Update)
      requires Subscribed(channel, handlers, joined)
      modifies this`channel, this`handlers
      ensures Subscribed(channel, handlers, joined) && channel == old(channel) + [u]
    {
      ghost var before := handlers;
      channel := channel + [u];
      for h := 0 to |handlers|
        invariant |handlers| == |before|
        invariant forall k :: 0 <= k < h ==> handlers[k] == before[k] + [u]
        invariant forall k :: h <= k < |handlers| ==> handlers[k] == before[k]
        modifies this`handlers
      {
        handlers := handlers[h := handlers[h] + [u]];
      }
    }

    /** `dispatch_list`: what was offered but not yet dispatched shrinks one by one. */
    method DispatchList(us: seq<Update>, ghost extra: multiset<Update>) returns (dispatched: seq<Update>)
      requires Inv(extra + multiset(us))
      modifies this`pts, this`gapPending, this`buffered, this`channel, this`handlers, this`channelsTooLong,
          this`channelPts
      modifies this`stale, this`overflow, this`since, this`flagged
      ensures Inv(extra)
      ensures Books() == SettledAll(old(Books()), us)
      ensures channel == old(channel) + dispatched
      ensures AllGapped(old(pts), us) && |old(buffered)| + |us| <= 10_000 ==>
                buffered == old(buffered) + us && unchanged(`pts, `overflow, `stale, `channel)
    {
      GapsKept(Books(), us);
      hide Inv, Consistent, Settled, SettledAll, After, FateOf, AllGapped;
      dispatched := [];
      assert us[0..] == us;
      for i := 0 to |us|
        invariant Inv(extra + multiset(us[i..]))
        invariant SettledAll(Books(), us[i..]) == SettledAll(old(Books()), us)
        invariant channel == old(channel) + dispatched
      {
        OneLess(us, i, extra);
        SettledAllStep(Books(), us[i..]);
        var one := DispatchOne(us[i], extra + multiset(us[i + 1..]));
        dispatched := dispatched + one;
      }
      NoneLeft(us[|us|..], extra, Books());
    }

    /** `process_updates`. A short sent message moves the cursor and delivers nothing. */
    method ProcessUpdates(e: Envelope) returns (dispatched: seq<Update>)
      requires Valid()
      modifies this`pts, this`gapPending, this`buffered, this`channel, this`handlers, this`channelsTooLong,
          this`channelPts
      modifies this`stale, this`overflow, this`since, this`flagged, this`offered, this`base, this`seqNo, this`date
      ensures Valid()
      ensures e.List? || e.Combined? ==>
                offered == old(offered) + e.updates && Books() == SettledAll(old(Books()), e.updates)
      ensures e.Short? ==> offered == old(offered) + [e.update] && Books() == Settled(old(Books()), e.update)
      ensures e.ShortSentMessage? ==>
                offered == old(offered) && dispatched == []
                && Books() == old(Books()).(core := old(State()).(cursor := e.pts), since := [])
      ensures base == (if e.ShortSentMessage? then e.pts else old(base))
      ensures channel == old(channel) + dispatched
      ensures date == e.date && seqNo == (if e.Combined? then e.seqNo else old(seqNo))
    {
      hide Consistent, Subscribed, Queued, Settled, SettledAll, FateOf, After;
      date := e.date;
      if e.Combined? {
        seqNo := e.seqNo;
      }
      match e
      case List(us, _) =>
        Offer(us);
        dispatched := DispatchList(us, multiset{});
      case Short(u, _) =>
        Offer([u]);
        OnlyOne(u);
        dispatched := DispatchOne(u, multiset{});
      case Combined(us, _, _) =>
        Offer(us);
        dispatched := DispatchList(us, multiset{});
      case ShortSentMessage(p, _, _) =>
        Reset(p);
        dispatched := [];
    }

    ghost method Offer(us: seq<Update>)
      requires Valid()
      modifies this`offered
      ensures Inv(multiset{} + multiset(us)) && offered == old(offered) + us
    {
      OfferConsistent(Books(), offered, base, us);
      hide Consistent, Subscribed, Queued;
      offered := offered + us;
    }

    /** `gap_resolved`: the cursor jumps, the buffer is dispatched again from the start. */
    method GapResolved(newPts: i32, newSeq: i32, newDate: i32)
      requires Valid()
      modifies this`pts, this`seqNo, this`date, this`gapPending, this`buffered, this`channel, this`handlers
      modifies this`channelsTooLong, this`channelPts, this`stale, this`overflow, this`since, this`flagged, this`base
      ensures Valid() && seqNo == newSeq && date == newDate && base == newPts
      ensures Books() == Flushed(old(Books()), newPts)
    {
      hide Consistent, Subscribed, Queued, Settled, SettledAll, FateOf, After;
      seqNo, date := newSeq, newDate;
      var waiting := TakeBuffer(newPts);
      var dispatched := DispatchList(waiting, multiset{});
    }

    method TakeBuffer(newPts: i32) returns (waiting: seq<Update>)
      requires Valid()
      modifies this`pts, this`gapPending, this`buffered, this`since, this`base
      ensures Inv(multiset{} + multiset(waiting)) && waiting == old(buffered) && base == newPts
      ensures Books() == old(Books()).(core := Core(newPts, false, []), since := [])
    {
      FlushConsistent(Books(), offered, base, newPts);
      hide Consistent, Subscribed, Queued;
      pts, gapPending := newPts, false;
      base, since := newPts, [];
      waiting, buffered := buffered, [];
    }

    /** `needs_difference`. */
    method NeedsDifference() returns (b: bool)
      requires Valid()
      ensures b <==> buffered != []
    {
      b := gapPending;
    }
  }

  /** The books after the gap was resolved at `newPts`. */
  function Flushed(l: Ledger, newPts: i32): Ledger {
    SettledAll(l.(core := Core(newPts, false, []), since := []), l.core.buffer)
  }

  predicate AllGapped(cursor: i32, us: seq<Update>) {
    forall u :: u in us ==> Gapped(cursor, u)
  }

  /** The books after `room` updates of a run beyond a gap were kept and the rest dropped. */
  function Heaped(l: Ledger, us: seq<Update>, room: nat): Ledger
    requires room <= |us|
  {
    l.(core := Core(l.core.cursor, true, l.core.buffer + us[..room]), overflow := l.overflow + us[room..])
  }

  /** How many updates of a run still fit. */
  function Room(l: Ledger, n: nat): (room: nat)
    ensures room <= n
  {
    if |l.core.buffer| + n <= 10_000 then n
    else if |l.core.buffer| <= 10_000 then 10_000 - |l.core.buffer| else 0
  }

  lemma FirstHeaped(l: Ledger, us: seq<Update>)
    requires AllGapped(l.core.cursor, us) && us != []
    ensures var next := Settled(l, us[0]);
            next == Heaped(l, us[..1], Room(l, 1)) && AllGapped(next.core.cursor, us[1..])
  {
    SettledMeans(l, us[0]);
    assert l.overflow + [] == l.overflow && l.core.buffer + [] == l.core.buffer;
  }

  lemma HeapedStep(l: Ledger, us: seq<Update>)
    requires us != []
    ensures var next := Heaped(l, us[..1], Room(l, 1));
            Heaped(next, us[1..], Room(next, |us| - 1)) == Heaped(l, us, Room(l, |us|))
  {
    var next := Heaped(l, us[..1], Room(l, 1));
    var room, rest := Room(l, |us|), Room(next, |us| - 1);
    if Room(l, 1) == 1 {
      assert room == 1 + rest;
      assert us[..1][..1] + us[1..][..rest] == us[..room] && us[1..][rest..] == us[room..];
      assert l.core.buffer + us[..1][..1] + us[1..][..rest] == l.core.buffer + us[..room];
      assert l.overflow + us[..1][1..] == l.overflow;
    } else {
      assert room == rest == 0;
      assert us[..1][0..] + us[1..][0..] == us[0..];
      assert l.overflow + us[..1][0..] + us[1..][0..] == l.overflow + us[0..];
    }
  }

  /** Updates beyond a gap are kept in order while there is room, and only then dropped. */
  lemma {:induction false} Kept(l: Ledger, us: seq<Update>)
    requires AllGapped(l.core.cursor, us) && us != []
    ensures SettledAll(l, us) == Heaped(l, us, Room(l, |us|))
    decreases |us|
  {
    FirstHeaped(l, us);
    SettledAllStep(l, us);
    HeapedStep(l, us);
    if |us| == 1 {
      assert us[..1] == us;
      hide *;
      NoneLeft(us[1..], multiset{}, Settled(l, us[0]));
    } else {
      hide *;
      Kept(Settled(l, us[0]), us[1..]);
    }
  }

  lemma GapsKept(l: Ledger, us: seq<Update>)
    ensures AllGapped(l.core.cursor, us) && |l.core.buffer| + |us| <= 10_000 ==>
              var r := SettledAll(l, us);
              && r.core.buffer == l.core.buffer + us && r.core.cursor == l.core.cursor
              && r.overflow == l.overflow && r.stale == l.stale && r.channel == l.channel
  {
    if AllGapped(l.core.cursor, us) && |l.core.buffer| + |us| <= 10_000 && us != [] {
      Kept(l, us);
      assert us[..|us|] == us && l.overflow + us[|us|..] == l.overflow;
    } else if us == [] {
      assert l.core.buffer + us == l.core.buffer;
    }
  }

  lemma OfferConsistent(b: Ledger, offered: seq<Update>, base: i32, us: seq<Update>)
    requires Consistent(b, offered, base, multiset{})
    ensures Consistent(b, offered + us, base, multiset{} + multiset(us))
  {
  }

  lemma ResetConsistent(b: Ledger, offered: seq<Update>, base: i32, p: i32)
    requires Consistent(b, offered, base, multiset{})
    ensures Consistent(b.(core := b.core.(cursor := p), since := []), offered, p, multiset{})
  {
  }

  lemma FlushConsistent(b: Ledger, offered: seq<Update>, base: i32, p: i32)
    requires Consistent(b, offered, base, multiset{})
    ensures Consistent(b.(core := Core(p, false, []), since := []), offered, p, multiset{} + multiset(b.core.buffer))
  {
  }

  lemma OnlyOne(u: Update)
    ensures multiset{} + multiset([u]) == multiset{} + multiset{u}
  {
  }

  lemma OneLess(us: seq<Update>, i: nat, extra: multiset<Update>)
    requires i < |us|
    ensures extra + multiset(us[i..]) == (extra + multiset(us[i + 1..])) + multiset{us[i]}
  {
    assert us[i..] == [us[i]] + us[i + 1..];
  }

  lemma NoneLeft(none: seq<Update>, extra: multiset<Update>, l: Ledger)
    requires |none| == 0
    ensures extra + multiset(none) == extra && SettledAll(l, none) == l
  {
  }

  lemma SettledAllStep(l: Ledger, us: seq<Update>)
    requires us != []
    ensures SettledAll(l, us) == SettledAll(Settled(l, us[0]), us[1..])
  {
  }
}
