/** The part split and the strided workers of `upload` in `src/file.rs`. The reader may
    return any positive number of bytes per call. */
module Upload {
  import opened Wrappers
  import opened Bytes
  import opened NumberTheory
  import opened File

  // ---- the reader ----

  class Reader {
    const content: seq<byte>
    /** How many bytes the `n`th call would like to give; it gives at least one before the end. */
    const appetite: nat -> nat
    var pos: nat
    var calls: nat

    ghost predicate Valid()
      reads this
    {
      pos <= |content|
    }

    constructor (content: seq<byte>, appetite: nat -> nat)
      ensures Valid() && this.content == content && pos == 0
    {
      this.content, this.appetite := content, appetite;
      pos, calls := 0, 0;
    }

    method Read(room: nat) returns (got: seq<byte>)
      requires Valid() && room > 0
      modifies this
      ensures Valid() && old(pos) <= pos <= old(pos) + room
      ensures got == content[old(pos)..pos]
      ensures got == [] <==> old(pos) == |content|
    {
      var n := Min(Min(room, 1 + appetite(calls)), |content| - pos);
      got := content[pos..pos + n];
      pos, calls := pos + n, calls + 1;
    }
  }

  // ---- the split ----

  /** Part `i` of a content cut every `PART_SIZE` bytes. */
  function PartOf(content: seq<byte>, i: nat): seq<byte> {
    content[Min(i * PART_SIZE, |content|)..Min((i + 1) * PART_SIZE, |content|)]
  }

  function Joined(parts: seq<seq<byte>>): seq<byte> {
    if parts == [] then [] else Joined(parts[..|parts| - 1]) + parts[|parts| - 1]
  }

  /** One part: the inner loop fills it whatever the reader gives per call. */
  method FillPart(reader: Reader, ghost i: nat) returns (buf: seq<byte>)
    requires reader.Valid() && reader.pos == Min(i * PART_SIZE, |reader.content|)
    modifies reader
    ensures reader.Valid() && reader.pos == Min((i + 1) * PART_SIZE, |reader.content|)
    ensures buf == PartOf(reader.content, i)
  {
    buf := [];
    ghost var start := reader.pos;
    var filled := 0;
    while filled < PART_SIZE
      invariant reader.Valid() && filled == |buf| <= PART_SIZE && reader.pos == start + filled
      invariant buf == reader.content[start..reader.pos]
      decreases PART_SIZE - filled
    {
      var got := reader.Read(PART_SIZE - filled);
      if |got| == 0 { break; }
      buf := buf + got;
      filled := filled + |got|;
    }
  }

  /** The plan of an upload of `size` declared bytes, or why it is refused. */
  function TotalParts(size: nat): (r: Result<nat>)
    ensures r.Ok? <==> 0 < size && (size > 0xA0_0000 ==> size <= 4000 * 0x8_0000)
    ensures r.Ok? ==> 0 < r.value <= 4000 && (r.value - 1) * 0x8_0000 < size <= r.value * 0x8_0000
  {
    if size == 0 then Err(Other)
    else
      var total := DivCeil(size, PART_SIZE);
      if size > BIG_FILE_THRESHOLD && total > MAX_PARTS then Err(Other) else Ok(total)
  }

  method SplitParts(reader: Reader, total: nat) returns (parts: seq<seq<byte>>)
    requires reader.Valid() && reader.pos == 0
    modifies reader
    ensures |parts| == total && forall i :: 0 <= i < total ==> parts[i] == PartOf(reader.content, i)
    ensures Joined(parts) == reader.content[..Min(total * PART_SIZE, |reader.content|)]
  {
    parts := [];
    for i := 0 to total
      invariant reader.Valid() && |parts| == i && reader.pos == Min(i * PART_SIZE, |reader.content|)
      invariant forall j :: 0 <= j < i ==> parts[j] == PartOf(reader.content, j)
      invariant Joined(parts) == reader.content[..reader.pos]
    {
      ghost var before, at := parts, reader.pos;
      var buf := FillPart(reader, i);
      parts := parts + [buf];
      assert parts[..i] == before;
      assert reader.content[..at] + reader.content[at..reader.pos] == reader.content[..reader.pos];
    }
  }

  // ---- the workers ----

  /** `clamp(1, total)`. */
  function WorkerCount(count: nat, total: nat): (w: nat)
    requires total > 0
    ensures 1 <= w <= total
  {
    if count < 1 then 1 else Min(count, total)
  }

  /** A list of indices as one worker sends them. */
  ghost predicate SentBy(sent: seq<nat>, worker: nat, workers: nat, total: nat) {
    && (forall i :: 0 <= i < |sent| ==> sent[i] == worker + i * workers < total)
    && worker + |sent| * workers >= total
  }

  /** The indices one worker sends, in order: `worker`, `worker + workers`, … */
  method Worker(worker: nat, workers: nat, total: nat) returns (sent: seq<nat>)
    requires worker < workers
    ensures SentBy(sent, worker, workers, total)
  {
    sent := [];
    var index := worker;
    while index < total
      invariant index == worker + |sent| * workers
      invariant forall i :: 0 <= i < |sent| ==> sent[i] == worker + i * workers < total
      decreases total - index
    {
      sent := sent + [index];
      index := index + workers;
    }
  }

  predicate SentAt(sent: seq<seq<nat>>, part: nat, w: nat, i: nat) {
    w < |sent| && i < |sent[w]| && sent[w][i] == part
  }

  /** One worker sends the part, at one place of its list. */
  ghost predicate SentOnce(sent: seq<seq<nat>>, part: nat) {
    exists w: nat, i: nat :: SentAt(sent, part, w, i) && OnlyAt(sent, part, w, i)
  }

  ghost predicate OnlyAt(sent: seq<seq<nat>>, part: nat, w: nat, i: nat) {
    forall v: nat, j: nat :: SentAt(sent, part, v, j) ==> v == w && j == i
  }

  /** All workers: each part is sent once. */
  method Workers(count: nat, total: nat) returns (sent: seq<seq<nat>>)
    requires total > 0
    ensures |sent| == WorkerCount(count, total)
    ensures forall w :: 0 <= w < |sent| ==> SentBy(sent[w], w, |sent|, total)
    ensures forall part: nat :: part < total ==> SentOnce(sent, part)
  {
    var workers := WorkerCount(count, total);
    sent := [];
    for w := 0 to workers
      invariant |sent| == w
      invariant forall v :: 0 <= v < w ==> SentBy(sent[v], v, workers, total)
    {
      var indices := Worker(w, workers, total);
      sent := sent + [indices];
    }
    hide SentBy, SentOnce;
    forall part: nat | part < total ensures SentOnce(sent, part) {
      PartSentOnce(sent, workers, total, part);
    }
  }

  lemma PartSentOnce(sent: seq<seq<nat>>, workers: nat, total: nat, part: nat)
    requires |sent| == workers > 0 && part < total
    requires forall w :: 0 <= w < workers ==> SentBy(sent[w], w, workers, total)
    ensures SentOnce(sent, part)
  {
    hide SentBy;
    EveryPartOnce(sent, workers, total, part);
    Quotients(part, workers);
    var w: nat, i: nat := part % workers, part / workers;
    assert SentAt(sent, part, w, i) && OnlyAt(sent, part, w, i);
  }

  lemma Quotients(part: nat, workers: nat)
    requires workers > 0
    ensures 0 <= part % workers < workers && part / workers >= 0
  {
  }

  /** Together the workers send every part exactly once: index `part` is sent by worker
      `part % workers` at one place, and by no other. */
  lemma EveryPartOnce(sent: seq<seq<nat>>, workers: nat, total: nat, part: nat)
    requires |sent| == workers > 0 && part < total
    requires forall w :: 0 <= w < workers ==> SentBy(sent[w], w, workers, total)
    ensures part / workers < |sent[part % workers]| && sent[part % workers][part / workers] == part
    ensures forall w, i :: 0 <= w < workers && 0 <= i < |sent[w]| && sent[w][i] == part ==>
              w == part % workers && i == part / workers
  {
    var w, i := part % workers, part / workers;
    assert SentBy(sent[w], w, workers, total);
    LongEnough(sent[w], w, workers, total, part);
    forall v, j | 0 <= v < workers && 0 <= j < |sent[v]| && sent[v][j] == part
      ensures v == w && j == i
    {
      assert SentBy(sent[v], v, workers, total);
      assert part == workers * j + v;
      DivUnique(part, workers, j, v);
    }
  }

  lemma LongEnough(sent: seq<nat>, w: nat, workers: nat, total: nat, part: nat)
    requires workers > 0 && part < total && w == part % workers && SentBy(sent, w, workers, total)
    ensures part / workers < |sent| && sent[part / workers] == part
  {
    var i := part / workers;
    assert part == workers * i + w;
    if |sent| <= i {
      Products(|sent|, i, workers);
    }
    assert |sent| > i;
  }

  lemma Products(a: nat, b: nat, c: nat)
    requires a <= b
    ensures a * c <= b * c
  {
  }

  /** A file of exactly the declared size is sent whole. */
  lemma WholeContent(content: seq<byte>, parts: seq<seq<byte>>)
    requires TotalParts(|content|).Ok?
    requires Joined(parts) == content[..Min(TotalParts(|content|).value * PART_SIZE, |content|)]
    ensures Joined(parts) == content
  {
  }
}
