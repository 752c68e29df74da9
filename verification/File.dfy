/** `src/file.rs`: chunked download, the parallel range plan with its reassembly, and the
    part split of an upload. The server answers each offset with the file's bytes there or
    with an error. */
module File {
  import opened Wrappers
  import opened Bytes
  import opened NumberTheory

  const DOWNLOAD_CHUNK: nat := 0x10_0000
  const PART_SIZE: nat := 0x8_0000
  const BIG_FILE_THRESHOLD: nat := 10 * 0x10_0000
  const MAX_PARTS: nat := 4000

  function Min(a: nat, b: nat): nat { if a < b then a else b }

  function DivCeil(a: nat, b: nat): (q: nat)
    requires b > 0
    ensures q * b >= a && (a > 0 ==> (q - 1) * b < a)
  {
    var q := a / b;
    assert a == b * q + a % b;
    if a % b == 0 then q else q + 1
  }

  // ---- serial download ----

  /** The file's bytes at `offset`, at most one chunk. */
  function Chunk(file: seq<byte>, offset: nat): (c: seq<byte>)
    ensures |c| <= DOWNLOAD_CHUNK
  {
    file[Min(offset, |file|)..Min(offset + DOWNLOAD_CHUNK, |file|)]
  }

  type Server = nat -> Result<seq<byte>>

  /** Every answer that is not an error is the file's chunk. */
  ghost predicate Truthful(server: Server, file: seq<byte>) {
    forall offset :: server(offset).Ok? ==> server(offset).value == Chunk(file, offset)
  }

  function AddSaturating(a: i64, b: nat): i64 {
    if a + b < TWO_63 then a + b else TWO_63 - 1
  }

  /** `download`: the whole file, or the first error. */
  method Download(server: Server, ghost file: seq<byte>) returns (r: Result<seq<byte>>)
    requires Truthful(server, file) && |file| < TWO_63
    ensures r.Ok? ==> r.value == file
    ensures r.Err? ==> exists k: nat :: k * DOWNLOAD_CHUNK <= |file| && server(k * DOWNLOAD_CHUNK) == r
    ensures (forall k: nat :: k * DOWNLOAD_CHUNK <= |file| ==> server(k * DOWNLOAD_CHUNK).Ok?) ==> r.Ok?
  {
    var out: seq<byte> := [];
    var offset: i64 := 0;
    ghost var k: nat := 0;
    while true
      invariant 0 <= offset == k * DOWNLOAD_CHUNK <= |file|
      invariant out == file[..offset]
      decreases |file| - offset
    {
      var chunk := server(offset);
      if chunk.Err? { return chunk; }
      var n := |chunk.value|;
      out := out + chunk.value;
      if n < DOWNLOAD_CHUNK { break; }
      offset := AddSaturating(offset, n);
      k := k + 1;
    }
    r := Ok(out);
  }

  // ---- the range plan ----

  datatype Range = Range(start: nat, end: nat)

  function Workers(size: nat, count: nat): (w: nat)
    ensures w >= 1
  {
    var w := Min(count, DivCeil(size, DOWNLOAD_CHUNK));
    if w < 1 then 1 else w
  }

  function RangeLength(size: nat, count: nat): nat {
    DivCeil(size, Workers(size, count))
  }

  function Saturated(x: nat): u64 {
    if x < TWO_64 then x else TWO_64 - 1
  }

  /** Ranges of length `range` from number `w` on, the last one cut at `size`. */
  function RangesFrom(size: nat, range: nat, w: nat): (r: seq<Range>)
    requires range > 0
    decreases size - w * range
  {
    if w * range >= size then []
    else
      assert (w + 1) * range == w * range + range;
      [Range(w * range, Min((w + 1) * range, size))] + RangesFrom(size, range, w + 1)
  }

  lemma Saturation(size: u64, range: nat, w: nat)
    requires range > 0
    ensures var start, end := Saturated(w * range), Min(Saturated((w + 1) * range), size);
            if w * range >= size then start >= end
            else start == w * range && start < end == Min((w + 1) * range, size)
  {
    assert (w + 1) * range == w * range + range;
  }

  lemma PlanGrows(size: nat, range: nat, w: nat, plan: seq<Range>)
    requires range > 0 && |plan| == w && plan + RangesFrom(size, range, w) == RangesFrom(size, range, 0)
    ensures w * range >= size ==> plan == RangesFrom(size, range, 0)
    ensures w * range < size ==>
              (plan + [Range(w * range, Min((w + 1) * range, size))]) + RangesFrom(size, range, w + 1)
                  == RangesFrom(size, range, 0)
  {
  }

  /** The loop that spawns workers stops at the first empty range. */
  method PlanRanges(size: u64, count: nat) returns (plan: seq<Range>)
    requires size > 0
    ensures RangeLength(size, count) > 0
    ensures plan == RangesFrom(size, RangeLength(size, count), 0)
    ensures |plan| <= Workers(size, count)
  {
    var workers := Workers(size, count);
    var range := RangeLength(size, count);
    hide *;
    PositiveRange(size, count);
    plan := [];
    for w := 0 to workers
      invariant |plan| == w && plan + RangesFrom(size, range, w) == RangesFrom(size, range, 0)
    {
      var start := Saturated(w * range);
      var end := Min(Saturated((w + 1) * range), size);
      Saturation(size, range, w);
      PlanGrows(size, range, w, plan);
      if start >= end { return; }
      plan := plan + [Range(start, end)];
    }
    PlanGrows(size, range, workers, plan);
  }

  lemma PositiveRange(size: nat, count: nat)
    requires size > 0
    ensures RangeLength(size, count) > 0 && Workers(size, count) * RangeLength(size, count) >= size
  {
    var w, r := Workers(size, count), RangeLength(size, count);
    assert r * w >= size;
    MulOrder(w, 0, r);
  }

  /** The ranges are non-empty, start at 0, meet end to start and stop at `size`. */
  predicate Tiles(plan: seq<Range>, from: nat, size: nat) {
    if plan == [] then from == size
    else plan[0].start == from < plan[0].end <= size && Tiles(plan[1..], plan[0].end, size)
  }

  lemma {:induction false} RangesTile(size: nat, range: nat, w: nat)
    requires range > 0 && w * range <= size
    ensures Tiles(RangesFrom(size, range, w), w * range, size)
    decreases size - w * range
  {
    var plan := RangesFrom(size, range, w);
    if plan != [] {
      assert (w + 1) * range == w * range + range;
      assert plan[1..] == RangesFrom(size, range, w + 1);
      if (w + 1) * range <= size {
        RangesTile(size, range, w + 1);
      }
    }
  }

  // ---- the workers ----

  /** Where the worker of a range stops: it asks for whole chunks until its end is covered. */
  function Stop(fileSize: nat, r: Range): nat
    requires r.start <= r.end
  {
    Min(fileSize, r.start + DivCeil(r.end - r.start, DOWNLOAD_CHUNK) * DOWNLOAD_CHUNK)
  }

  function AsOffset(x: nat): nat {
    Min(x, TWO_63 - 1)
  }

  /** One worker: the bytes from its start to the end of its last whole chunk or of the
      file; an error of the server, or `Other` when the file ends before the range does. */
  method FetchRange(server: Server, ghost file: seq<byte>, range: Range) returns (r: Result<seq<byte>>)
    requires Truthful(server, file) && |file| < TWO_63 && range.start < range.end
    ensures r.Ok? ==> range.end <= |file| && range.start <= Stop(|file|, range)
                      && r.value == file[range.start..Stop(|file|, range)]
    ensures r.Err? ==> (r.error == Other && |file| < range.end) || exists offset :: server(offset) == r
    ensures range.end <= |file| && (forall offset :: server(offset).Ok?) ==> r.Ok?
  {
    var buf: seq<byte> := [];
    var offset := range.start;
    ghost var k: nat := 0;
    while offset < range.end
      invariant offset >= range.start
      invariant offset > range.start ==> offset <= |file| && buf == file[range.start..offset]
      invariant offset == range.start ==> buf == []
      invariant offset == |file| || offset == range.start + k * DOWNLOAD_CHUNK
      invariant k > 0 ==> range.start + (k - 1) * DOWNLOAD_CHUNK < range.end
      invariant offset <= range.start + k * DOWNLOAD_CHUNK
      decreases range.end - offset
    {
      var chunk := server(AsOffset(offset));
      if chunk.Err? { return chunk; }
      if |chunk.value| == 0 {
        return Err(Other);
      }
      Continue(file, range.start, offset, buf);
      buf := buf + chunk.value;
      offset := offset + |chunk.value|;
      k := k + 1;
    }
    StopIs(|file|, range, k, offset);
    r := Ok(buf);
  }

  lemma Continue(file: seq<byte>, start: nat, offset: nat, buf: seq<byte>)
    requires |file| < TWO_63 && start <= offset
    requires if offset > start then offset <= |file| && buf == file[start..offset] else buf == []
    ensures var c := Chunk(file, AsOffset(offset));
            && (c == [] <==> |file| <= offset)
            && (c != [] ==>
                  offset + |c| == Min(offset + DOWNLOAD_CHUNK, |file|) && buf + c == file[start..offset + |c|])
  {
  }

  lemma StopIs(size: nat, range: Range, k: nat, offset: nat)
    requires range.start < range.end <= offset <= size
    requires offset == size || offset == range.start + k * DOWNLOAD_CHUNK
    requires k > 0 && range.start + (k - 1) * DOWNLOAD_CHUNK < range.end
    requires offset <= range.start + k * DOWNLOAD_CHUNK
    ensures Stop(size, range) == offset
  {
    CeilIs(range.end - range.start, k);
  }

  lemma CeilIs(n: nat, k: nat)
    requires k > 0 && (k - 1) * DOWNLOAD_CHUNK < n <= k * DOWNLOAD_CHUNK
    ensures DivCeil(n, DOWNLOAD_CHUNK) == k
  {
  }

  // ---- reassembly ----

  type Part = (nat, seq<byte>)

  /** What the worker of a range that lies inside the file returns. */
  function Piece(file: seq<byte>, r: Range): Part
    requires r.start <= r.end <= |file|
  {
    assert r.start <= Stop(|file|, r);
    (r.start, file[r.start..Stop(|file|, r)])
  }

  function Pieces(file: seq<byte>, plan: seq<Range>): (r: seq<Part>)
    requires forall p :: p in plan ==> p.start <= p.end <= |file|
    ensures |r| == |plan|
    ensures forall i :: 0 <= i < |plan| ==> r[i] == Piece(file, plan[i])
  {
    seq(|plan|, i requires 0 <= i < |plan| => Piece(file, plan[i]))
  }

  function Flattened(parts: seq<Part>): seq<byte> {
    if parts == [] then [] else parts[0].1 + Flattened(parts[1..])
  }

  /** `sort_by_key`: a stable insertion by start. */
  function Inserted(x: Part, sorted: seq<Part>): seq<Part> {
    if sorted == [] || x.0 <= sorted[0].0 then [x] + sorted
    else [sorted[0]] + Inserted(x, sorted[1..])
  }

  function Sorted(parts: seq<Part>): seq<Part> {
    if parts == [] then [] else Inserted(parts[0], Sorted(parts[1..]))
  }

  predicate Ascending(parts: seq<Part>) {
    forall i :: 0 < i < |parts| ==> parts[i - 1].0 <= parts[i].0
  }

  /** The parts come back in the order of their ranges, so sorting moves none. */
  lemma {:induction false} SortedStays(parts: seq<Part>)
    requires Ascending(parts)
    ensures Sorted(parts) == parts
  {
    if parts != [] {
      assert forall i :: 0 < i < |parts[1..]| ==> parts[1..][i - 1] == parts[i] && parts[1..][i] == parts[i + 1];
      SortedStays(parts[1..]);
      assert parts == [parts[0]] + parts[1..];
    }
  }

  /** The parallel branch is taken for a known size at or above the threshold. */
  predicate Parallel(size: nat, threshold: nat, count: nat) {
    size > 0 && count > 1 && size >= threshold
  }

  /** `download_parallel` for a file of the stated size. */
  method DownloadParallel(server: Server, ghost file: seq<byte>, size: u64, threshold: u64,
                          count: nat) returns (r: Result<seq<byte>>)
    requires Truthful(server, file) && |file| == size < TWO_63
    ensures r.Err? ==> exists offset :: server(offset) == r
    ensures (forall offset :: server(offset).Ok?) ==> r.Ok?
    ensures r.Ok? && !Parallel(size, threshold, count) ==> r.value == file
    ensures r.Ok? && Parallel(size, threshold, count) ==> r.value == Reassembled(file, RangeLength(size, count))
  {
    if size == 0 { return Ok([]); }
    if count <= 1 || size < threshold {
      r := Download(server, file);
      return;
    }
    var plan := PlanRanges(size, count);
    RangesInside(size, RangeLength(size, count), 0);
    var parts: seq<Part> := [];
    for i := 0 to |plan|
      invariant parts == Pieces(file, plan[..i])
    {
      assert plan[i] in plan && plan[..i + 1] == plan[..i] + [plan[i]];
      var piece := FetchRange(server, file, plan[i]);
      if piece.Err? { return piece; }
      parts := parts + [(plan[i].start, piece.value)];
    }
    assert plan[..|plan|] == plan;
    r := Ok(Flattened(Sorted(parts)));
  }

  lemma {:induction false} RangesInside(size: nat, range: nat, w: nat)
    requires range > 0
    ensures forall i :: 0 <= i < |RangesFrom(size, range, w)| ==>
              var p := RangesFrom(size, range, w)[i];
              p.start == (w + i) * range < p.end == Min((w + i + 1) * range, size)
    decreases size - w * range
  {
    if w * range < size {
      assert (w + 1) * range == w * range + range;
      RangesInside(size, range, w + 1);
    }
  }

  /** The bytes the parallel branch delivers. */
  function Reassembled(file: seq<byte>, range: nat): seq<byte>
    requires range > 0
  {
    RangesInside(|file|, range, 0);
    Flattened(Sorted(Pieces(file, RangesFrom(|file|, range, 0))))
  }

  lemma PiecesAscend(file: seq<byte>, range: nat, w: nat)
    requires range > 0
    requires forall p :: p in RangesFrom(|file|, range, w) ==> p.start <= p.end <= |file|
    ensures Ascending(Pieces(file, RangesFrom(|file|, range, w)))
  {
    var plan := RangesFrom(|file|, range, w);
    RangesInside(|file|, range, w);
    forall i | 0 < i < |plan| ensures plan[i - 1].start <= plan[i].start {
      assert (w + i) * range == (w + (i - 1)) * range + range;
    }
  }

  lemma AlignedStop(size: nat, start: nat, range: nat)
    requires range > 0 && start + range <= size
    ensures range % DOWNLOAD_CHUNK == 0 ==> Stop(size, Range(start, start + range)) == start + range
    ensures range % DOWNLOAD_CHUNK != 0 && start + range < size ==>
              size >= Stop(size, Range(start, start + range)) > start + range
  {
  }

  /** From range `w` on: at least the rest of the file; exactly it when ranges are whole
      chunks or only one range is left; too long otherwise. */
  lemma {:induction false} RestReassembled(file: seq<byte>, range: nat, w: nat)
    requires range > 0 && w * range < |file|
    ensures forall p :: p in RangesFrom(|file|, range, w) ==> p.start <= p.end <= |file|
    ensures var rest := Flattened(Pieces(file, RangesFrom(|file|, range, w)));
            if range % DOWNLOAD_CHUNK == 0 || (w + 1) * range >= |file|
            then rest == file[w * range..]
            else |rest| > |file| - w * range
    decreases |file| - w * range
  {
    var size, start := |file|, w * range;
    FirstPiece(file, range, w);
    NextStart(range, w);
    hide *;
    var plan := RangesFrom(size, range, w);
    var first := Piece(file, plan[0]);
    if start + range < size {
      RestReassembled(file, range, w + 1);
      Joined(file, start, start + range);
    }
  }

  lemma NextStart(range: nat, w: nat)
    ensures (w + 1) * range == w * range + range && (w + 2) * range == w * range + range + range
  {
  }

  lemma Joined(file: seq<byte>, start: nat, mid: nat)
    requires start <= mid <= |file|
    ensures file[start..] == file[start..mid] + file[mid..]
  {
  }

  /** The worker of range `w`, and what the others leave. */
  lemma FirstPiece(file: seq<byte>, range: nat, w: nat)
    requires range > 0 && w * range < |file|
    ensures forall p :: p in RangesFrom(|file|, range, w) ==> p.start <= p.end <= |file|
    ensures var size, start, plan := |file|, w * range, RangesFrom(|file|, range, w);
            && plan != [] && plan[1..] == RangesFrom(size, range, w + 1) && (w + 1) * range == start + range
            && Flattened(Pieces(file, plan)) == Piece(file, plan[0]).1 + Flattened(Pieces(file, plan[1..]))
            && (start + range >= size ==>
                Piece(file, plan[0]).1 == file[start..] && Flattened(Pieces(file, plan[1..])) == [])
            && (start + range < size ==>
                  if range % DOWNLOAD_CHUNK == 0 then Piece(file, plan[0]).1 == file[start..start + range]
                  else |Piece(file, plan[0]).1| > range)
  {
    hide RangesFrom, Stop, Pieces, Flattened, DivCeil;
    var size, start, plan := |file|, w * range, RangesFrom(|file|, range, w);
    FirstRange(size, range, w);
    FlattenedStep(file, plan);
    if start + range < size {
      AlignedStop(size, start, range);
    } else {
      LastStop(size, start, range);
      EmptyFlattened(file);
    }
  }

  lemma FirstRange(size: nat, range: nat, w: nat)
    requires range > 0 && w * range < size
    ensures forall p :: p in RangesFrom(size, range, w) ==> p.start <= p.end <= size
    ensures var plan := RangesFrom(size, range, w);
            && plan != [] && plan[0] == Range(w * range, Min(w * range + range, size))
            && plan[1..] == RangesFrom(size, range, w + 1) && (w + 1) * range == w * range + range
            && (w * range + range >= size ==> plan[1..] == [])
  {
    RangesInside(size, range, w);
    assert (w + 1) * range == w * range + range;
  }

  lemma FlattenedStep(file: seq<byte>, plan: seq<Range>)
    requires plan != [] && forall p :: p in plan ==> p.start <= p.end <= |file|
    ensures Flattened(Pieces(file, plan)) == Piece(file, plan[0]).1 + Flattened(Pieces(file, plan[1..]))
  {
    var pieces := Pieces(file, plan);
    assert pieces[0] == Piece(file, plan[0]) && pieces[1..] == Pieces(file, plan[1..]);
    hide Piece;
  }

  lemma EmptyFlattened(file: seq<byte>)
    ensures Flattened(Pieces(file, [])) == []
  {
  }

  lemma LastStop(size: nat, start: nat, range: nat)
    requires start < size <= start + range
    ensures Stop(size, Range(start, Min(start + range, size))) == size
  {
  }

  /** The parallel download is the file exactly when its range length is a whole number of
      chunks or one range covers everything; a worker otherwise reads past its range. */
  lemma ParallelExact(file: seq<byte>, range: nat)
    requires range > 0 && file != []
    ensures Reassembled(file, range) == file <==> range % 0x10_0000 == 0 || range >= |file|
  {
    FromTheStart(file, range);
    hide *;
    RestReassembled(file, range, 0);
    PiecesAscend(file, range, 0);
    SortedStays(Pieces(file, RangesFrom(|file|, range, 0)));
  }

  lemma FromTheStart(file: seq<byte>, range: nat)
    requires range > 0
    ensures file[0 * range..] == file && (0 + 1) * range == range
    ensures forall p :: p in RangesFrom(|file|, range, 0) ==> p.start <= p.end <= |file|
    ensures Reassembled(file, range) == Flattened(Sorted(Pieces(file, RangesFrom(|file|, range, 0))))
  {
    RangesInside(|file|, range, 0);
  }

  /** Two workers over a file of three chunks: the middle half chunk arrives twice. */
  lemma ThreeChunksTwoWorkers(file: seq<byte>)
    requires |file| == 3 * DOWNLOAD_CHUNK
    ensures RangeLength(|file|, 2) == 3 * DOWNLOAD_CHUNK / 2
    ensures Reassembled(file, RangeLength(|file|, 2)) != file
  {
    ParallelExact(file, RangeLength(|file|, 2));
  }
}
