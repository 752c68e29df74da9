/** What the dispatcher's invariants mean: delivered updates tile the counter line, and a
    resolved gap delivers exactly what was missing. */
module UpdateLaws {
  import opened Wrappers
  import opened Bytes
  import opened Updates

  // ---- between two resets ----

  function Sum(us: seq<Update>): int
    requires Numbered(us)
  {
    if us == [] then 0 else Sum(us[..|us| - 1]) + us[|us| - 1].count
  }

  /** No delivery of the run overflowed a 32-bit counter. */
  predicate Unsaturated(base: i32, since: seq<Update>)
    requires Numbered(since)
  {
    forall i :: 0 <= i < |since| ==> Before(base, since, i) + since[i].count < TWO_31
  }

  /** Update `i` covers the counter values from where the previous one stopped. */
  predicate Adjacent(base: i32, since: seq<Update>, i: nat)
    requires Numbered(since) && i < |since|
  {
    since[i].pts - since[i].count == Before(base, since, i) < since[i].pts
  }

  /** Counts are positive, and a delivery covers exactly the values from the old cursor to
      the new one, unless the addition saturated. */
  lemma DeliveredAdjacent(base: i32, since: seq<Update>, cursor: i32, i: nat)
    requires Tracked(base, since, cursor) && i < |since|
    ensures since[i].count > 0 && Before(base, since, i) < since[i].pts
    ensures Adjacent(base, since, i) <==> Before(base, since, i) + since[i].count < TWO_31
  {
    assert Next(Before(base, since, i), since[i]);
  }

  /** The run tiles `(base, cursor]` exactly when no delivery saturated. */
  lemma TilesExactly(base: i32, since: seq<Update>, cursor: i32)
    requires Tracked(base, since, cursor)
    ensures (forall i :: 0 <= i < |since| ==> Adjacent(base, since, i)) <==> Unsaturated(base, since)
    ensures Unsaturated(base, since) ==> Sum(since) == cursor - base
  {
    forall i | 0 <= i < |since|
      ensures Adjacent(base, since, i) <==> Before(base, since, i) + since[i].count < TWO_31
    {
      DeliveredAdjacent(base, since, cursor, i);
    }
    if Unsaturated(base, since) {
      Counted(base, since, cursor);
    }
  }

  lemma {:induction false} Counted(base: i32, since: seq<Update>, cursor: i32)
    requires Numbered(since) && cursor == CursorAfter(base, since)
    requires forall i :: 0 <= i < |since| ==> Adjacent(base, since, i)
    ensures Sum(since) == cursor - base
  {
    if since != [] {
      var k := |since| - 1;
      var rest := since[..k];
      forall i | 0 <= i < k ensures Adjacent(base, rest, i) {
        assert Adjacent(base, since, i);
      }
      Counted(base, rest, CursorAfter(base, rest));
      assert Adjacent(base, since, k);
    }
  }

  /** The cursor only rises between resets. */
  lemma {:induction false} Rising(base: i32, since: seq<Update>, cursor: i32, i: nat, j: nat)
    requires Tracked(base, since, cursor) && i < j < |since|
    ensures base < since[i].pts < since[j].pts <= cursor
    ensures since[i].pts <= Before(base, since, j)
    decreases j
  {
    hide *;
    DeliveredAdjacent(base, since, cursor, j);
    AtOrAfterBase(base, since, cursor, i);
    AtOrBeforeCursor(base, since, cursor, j);
    BeforeIs(base, since, cursor, j);
    if i + 1 < j {
      Rising(base, since, cursor, i, j - 1);
    }
  }

  lemma BeforeIs(base: i32, since: seq<Update>, cursor: i32, i: nat)
    requires Tracked(base, since, cursor) && i <= |since|
    ensures Numbered(since)
    ensures Before(base, since, i) == if i == 0 then base else since[i - 1].pts
    ensures cursor == Before(base, since, |since|)
  {
  }

  lemma {:induction false} AtOrAfterBase(base: i32, since: seq<Update>, cursor: i32, i: nat)
    requires Tracked(base, since, cursor) && i < |since|
    ensures base <= Before(base, since, i) < since[i].pts
  {
    hide *;
    DeliveredAdjacent(base, since, cursor, i);
    BeforeIs(base, since, cursor, i);
    if i > 0 {
      AtOrAfterBase(base, since, cursor, i - 1);
    }
  }

  lemma {:induction false} AtOrBeforeCursor(base: i32, since: seq<Update>, cursor: i32, j: nat)
    requires Tracked(base, since, cursor) && j < |since|
    ensures since[j].pts <= cursor
    decreases |since| - j
  {
    hide *;
    BeforeIs(base, since, cursor, j + 1);
    if j + 1 < |since| {
      DeliveredAdjacent(base, since, cursor, j + 1);
      AtOrBeforeCursor(base, since, cursor, j + 1);
    }
  }

  /** No counter value is delivered twice, saturated or not. */
  lemma NeverTwice(base: i32, since: seq<Update>, cursor: i32, i: nat, j: nat)
    requires Tracked(base, since, cursor) && i < |since| && j < |since| && since[i].pts == since[j].pts
    ensures i == j
  {
    if i < j {
      Rising(base, since, cursor, i, j);
    } else if j < i {
      Rising(base, since, cursor, j, i);
    }
  }

  predicate Covers(u: Update, n: int)
    requires u.Pts?
  {
    u.pts - u.count < n <= u.pts
  }

  /** Without saturation every value between base and cursor is covered by exactly one
      delivered update. */
  lemma {:induction false} CoveredOnce(base: i32, since: seq<Update>, cursor: i32, n: int) returns (k: nat)
    requires Tracked(base, since, cursor) && Unsaturated(base, since) && base < n <= cursor
    ensures k < |since| && Covers(since[k], n)
    ensures forall i :: 0 <= i < |since| && Covers(since[i], n) ==> i == k
  {
    TilesExactly(base, since, cursor);
    k := Find(base, since, cursor, n);
    forall i | 0 <= i < |since| && Covers(since[i], n) ensures i == k {
      assert Adjacent(base, since, i) && Adjacent(base, since, k);
      if i < k {
        Rising(base, since, cursor, i, k);
      } else if k < i {
        Rising(base, since, cursor, k, i);
      }
    }
  }

  lemma {:induction false} Find(base: i32, since: seq<Update>, cursor: i32, n: int) returns (k: nat)
    requires Numbered(since) && cursor == CursorAfter(base, since)
    requires forall i :: 0 <= i < |since| ==> Adjacent(base, since, i)
    requires base < n <= cursor
    ensures k < |since| && Covers(since[k], n)
  {
    k := |since| - 1;
    assert Adjacent(base, since, k);
    if n <= Before(base, since, k) {
      var rest := since[..k];
      forall i | 0 <= i < k ensures Adjacent(base, rest, i) {
        assert Adjacent(base, since, i);
      }
      k := Find(base, rest, CursorAfter(base, rest), n);
    }
  }

  // ---- resolving a gap ----

  /** Buffered updates without a hole between them. */
  predicate Contiguous(us: seq<Update>) {
    Numbered(us)
    && (forall i :: 0 <= i < |us| ==> us[i].count > 0)
    && (forall i :: 0 < i < |us| ==> us[i].pts - us[i].count == us[i - 1].pts)
  }

  /** The counter value at boundary `m` of a chain: before its first update, or after update `m`. */
  function Boundary(us: seq<Update>, m: nat): int
    requires Numbered(us) && us != [] && m <= |us|
  {
    if m == 0 then us[0].pts - us[0].count else us[m - 1].pts
  }

  /** `gap_resolved` at boundary `m` of a contiguous buffer drops the first `m` updates as
      stale, delivers the rest in order, and ends at the last one with nothing waiting. */
  lemma FlushDelivers(l: Ledger, m: nat, newPts: i32)
    requires Contiguous(l.core.buffer) && l.core.buffer != [] && m <= |l.core.buffer|
    requires newPts == Boundary(l.core.buffer, m)
    ensures var us, r := l.core.buffer, Flushed(l, newPts);
            && r.core == Core(us[|us| - 1].pts, false, [])
            && r.stale == l.stale + us[..m]
            && r.channel == l.channel + us[m..]
            && r.overflow == l.overflow && r.since == us[m..]
  {
    var us := l.core.buffer;
    var reset := l.(core := Core(newPts, false, []), since := []);
    ChainBelow(us, m);
    SkipStale(reset, us, m);
    var skipped := reset.(stale := l.stale + us[..m]);
    TailContiguous(us, m);
    EndOfChain(us, m, newPts);
    hide SettledAll, Contiguous, Boundary, CursorAfter, Numbered;
    DeliverAll(skipped, us[m..]);
    assert [] + us[m..] == us[m..];
  }

  lemma EndOfChain(us: seq<Update>, m: nat, base: i32)
    requires Contiguous(us) && us != [] && m <= |us| && base == Boundary(us, m)
    ensures CursorAfter(base, us[m..]) == us[|us| - 1].pts
    ensures us[m..] != [] ==> base == us[m..][0].pts - us[m..][0].count
  {
  }

  lemma TailContiguous(us: seq<Update>, m: nat)
    requires Contiguous(us) && m <= |us|
    ensures Contiguous(us[m..])
  {
  }

  lemma {:induction false} ChainBelow(us: seq<Update>, m: nat)
    requires Contiguous(us) && us != [] && m <= |us|
    ensures forall i :: 0 <= i < m ==> us[i].pts <= Boundary(us, m)
  {
    if m > 1 {
      ChainBelow(us, m - 1);
    }
  }

  /** The books after all of `us` were dropped as stale. */
  function Dropped(l: Ledger, us: seq<Update>): Ledger {
    l.(stale := l.stale + us)
  }

  lemma DroppedStep(l: Ledger, us: seq<Update>, m: nat)
    requires 0 < m <= |us|
    ensures Dropped(Dropped(l, us[..1]), us[1..][..m - 1]) == Dropped(l, us[..m]) && us[1..][m - 1..] == us[m..]
  {
    assert us[..m] == us[..1] + us[1..][..m - 1];
    assert l.stale + us[..m] == l.stale + us[..1] + us[1..][..m - 1];
  }

  lemma FirstDropped(l: Ledger, us: seq<Update>)
    requires Numbered(us) && us != [] && us[0].pts <= l.core.cursor
    ensures Settled(l, us[0]) == Dropped(l, us[..1]) && Dropped(l, us[..1]).core == l.core
    ensures Numbered(us[1..])
  {
    SettledMeans(l, us[0]);
  }

  /** A prefix at or below the cursor is dropped. */
  lemma {:induction false} SkipStale(l: Ledger, us: seq<Update>, m: nat)
    requires Numbered(us) && m <= |us|
    requires forall i :: 0 <= i < m ==> us[i].pts <= l.core.cursor
    ensures SettledAll(l, us) == SettledAll(Dropped(l, us[..m]), us[m..])
    decreases m
  {
    if m == 0 {
      assert us[0..] == us && l.stale + us[..0] == l.stale;
    } else {
      FirstDropped(l, us);
      SettledAllStep(l, us);
      DroppedStep(l, us, m);
      hide Settled, SettledAll, Dropped;
      SkipStale(Dropped(l, us[..1]), us[1..], m - 1);
    }
  }

  /** The books after all of `us` were delivered. */
  function CaughtUp(l: Ledger, us: seq<Update>): Ledger
    requires Numbered(us)
  {
    l.(core := l.core.(cursor := CursorAfter(l.core.cursor, us)), channel := l.channel + us, since := l.since + us)
  }

  lemma CaughtUpStep(l: Ledger, us: seq<Update>)
    requires Numbered(us) && us != []
    ensures CaughtUp(CaughtUp(l, us[..1]), us[1..]) == CaughtUp(l, us)
  {
    assert us == us[..1] + us[1..];
    assert l.channel + us == l.channel + us[..1] + us[1..] && l.since + us == l.since + us[..1] + us[1..];
  }

  /** A chain that starts at the cursor is delivered whole, whatever waits in the buffer. */
  lemma {:induction false} DeliverAll(l: Ledger, us: seq<Update>)
    requires Contiguous(us)
    requires us != [] ==> l.core.cursor == us[0].pts - us[0].count
    ensures SettledAll(l, us) == CaughtUp(l, us)
    decreases |us|
  {
    if us != [] {
      FirstDelivered(l, us);
      SettledAllStep(l, us);
      CaughtUpStep(l, us);
      hide *;
      DeliverAll(Settled(l, us[0]), us[1..]);
    } else {
      assert l.channel + us == l.channel && l.since + us == l.since;
    }
  }

  lemma FirstDelivered(l: Ledger, us: seq<Update>)
    requires Contiguous(us) && us != [] && l.core.cursor == us[0].pts - us[0].count
    ensures Settled(l, us[0]) == CaughtUp(l, us[..1])
    ensures us[1..] != [] ==> Settled(l, us[0]).core.cursor == us[1..][0].pts - us[1..][0].count
    ensures Contiguous(us[1..])
  {
    SettledMeans(l, us[0]);
    TailContiguous(us, 1);
  }

  /** `gap_resolved` past the whole buffer drops it; before all of it, it stays as it is. */
  lemma FlushElsewhere(l: Ledger, newPts: i32)
    requires Numbered(l.core.buffer) && 0 < |l.core.buffer| <= 10_000
    ensures (forall u :: u in l.core.buffer ==> u.pts <= newPts) ==>
              Flushed(l, newPts)
              == l.(core := Core(newPts, false, []), since := [], stale := l.stale + l.core.buffer)
    ensures AllGapped(newPts, l.core.buffer) ==>
              Flushed(l, newPts) == l.(core := Core(newPts, true, l.core.buffer), since := [])
  {
    var us := l.core.buffer;
    var reset := l.(core := Core(newPts, false, []), since := []);
    if forall u :: u in us ==> u.pts <= newPts {
      SkipStale(reset, us, |us|);
      NoneLeft(us[|us|..], multiset{}, reset.(stale := l.stale + us[..|us|]));
      assert us[..|us|] == us;
    }
    if AllGapped(newPts, us) {
      Kept(reset, us);
      assert [] + us[..|us|] == us && l.overflow + us[|us|..] == l.overflow;
    }
  }
}
