/** Segmentation of what a mock endpoint and a scenario write (packages/core/src/mock-endpoint.ts). */
module MockEndpoint {
  import opened Octets
  import opened Numbers
  import opened HeaderParser
  import opened Framing
  import opened Encoder
  import opened Decoder
  import opened RoundTrip

  // ---------------------------------------------------------------- splitting a buffer

  /** Segments of the given sizes while octets last, then the remainder. */
  function Segments(source: Bytes, sizes: seq<nat>): seq<Bytes>
    decreases |sizes|
  {
    if source == [] then []
    else if sizes == [] then [source]
    else if sizes[0] >= |source| then [source]
    else [source[..sizes[0]]] + Segments(source[sizes[0]..], sizes[1..])
  }

  /** `splitBuffer` */
  method SplitBuffer(source: Bytes, sizes: seq<nat>) returns (chunks: seq<Bytes>)
    ensures chunks == Split(source, sizes)
  {
    chunks := [];
    var offset := 0;
    var i := 0;
    assert source[0..] == source && sizes[0..] == sizes;
    while i < |sizes| && offset < |source|
      invariant i <= |sizes| && offset <= |source|
      invariant Segments(source, sizes) == chunks + Segments(source[offset..], sizes[i..])
    {
      var end := if offset + sizes[i] < |source| then offset + sizes[i] else |source|;
      SegmentsStep(source, sizes, offset, i, chunks);
      chunks := chunks + [source[offset..end]];
      offset := end;
      i := i + 1;
    }
    if offset < |source| {
      chunks := chunks + [source[offset..]];
    }
    return if |chunks| > 0 then chunks else [source];
  }

  lemma SegmentsStep(source: Bytes, sizes: seq<nat>, offset: nat, i: nat, chunks: seq<Bytes>)
    requires offset < |source| && i < |sizes|
    ensures var end := if offset + sizes[i] < |source| then offset + sizes[i] else |source|;
            chunks + Segments(source[offset..], sizes[i..])
            == (chunks + [source[offset..end]]) + Segments(source[end..], sizes[i + 1..])
  {
    var s, end := source[offset..], if offset + sizes[i] < |source| then offset + sizes[i] else |source|;
    assert sizes[i..][1..] == sizes[i + 1..];
    if offset + sizes[i] < |source| {
      assert s[..sizes[i]] == source[offset..end] && s[sizes[i]..] == source[end..];
      assert chunks + ([source[offset..end]] + Segments(source[end..], sizes[i + 1..]))
          == (chunks + [source[offset..end]]) + Segments(source[end..], sizes[i + 1..]);
    } else {
      assert source[offset..end] == s && source[end..] == [];
    }
  }

  /** Segmentation loses, adds and reorders nothing. */
  lemma {:induction false} SegmentsConcat(source: Bytes, sizes: seq<nat>)
    ensures Concat(Segments(source, sizes)) == source
    decreases |sizes|
  {
    if source == [] {
    } else if sizes == [] || sizes[0] >= |source| {
      assert Concat([source]) == source;
    } else {
      SegmentsConcat(source[sizes[0]..], sizes[1..]);
      TakeDrop(source, sizes[0]);
    }
  }

  /** Each piece has its size but the last, which is what is left if that is no more, or if sizes have run out. */
  ghost predicate SizesFollowed(chunks: seq<Bytes>, sizes: seq<nat>) {
    && |chunks| <= |sizes| + 1
    && forall i | 0 <= i < |chunks| && i < |sizes| ::
         if i < |chunks| - 1 then |chunks[i]| == sizes[i] else |chunks[i]| <= sizes[i]
  }

  /** Segmentation follows the sizes given; what is left over is one last piece. */
  lemma {:induction false} SegmentSizes(source: Bytes, sizes: seq<nat>)
    ensures SizesFollowed(Segments(source, sizes), sizes)
    ensures source != [] ==> Segments(source, sizes) != []
    decreases |sizes|
  {
    if source != [] && sizes != [] && sizes[0] < |source| {
      var rest := Segments(source[sizes[0]..], sizes[1..]);
      SegmentSizes(source[sizes[0]..], sizes[1..]);
      forall i | 0 <= i <= |rest| && i < |sizes|
        ensures var all := Segments(source, sizes);
                if i < |all| - 1 then |all[i]| == sizes[i] else |all[i]| <= sizes[i]
      {
        if i > 0 { assert sizes[i] == sizes[1..][i - 1] && Segments(source, sizes)[i] == rest[i - 1]; }
      }
    }
  }

  /** The quotient rounded up: the least `k` with `a <= k * b`. */
  function CeilDiv(a: nat, b: nat): (k: nat)
    requires b >= 1
    ensures a <= k * b && (a > 0 ==> k >= 1 && (k - 1) * b < a)
  {
    if a == 0 then 0 else if a <= b then 1 else 1 + CeilDiv(a - b, b)
  }

  function Parts(length: nat, count: int): (p: nat)
    ensures p >= 1
  {
    if count < 1 || length < 1 then 1 else Min(count, length)
  }

  function Repeat(size: nat, times: nat): seq<nat> {
    if times == 0 then [] else [size] + Repeat(size, times - 1)
  }

  /** `splitIntoParts` */
  method SplitIntoParts(source: Bytes, count: int) returns (chunks: seq<Bytes>)
    ensures chunks == EqualParts(source, count)
  {
    var parts := Parts(|source|, count);
    var size := CeilDiv(|source|, parts);
    chunks := SplitBuffer(source, Repeat(size, parts));
  }

  function EqualParts(source: Bytes, count: int): seq<Bytes> {
    var parts := Parts(|source|, count);
    if source == [] then [[]] else Segments(source, Repeat(CeilDiv(|source|, parts), parts))
  }

  /** All pieces are of one size but the last, and none is empty. */
  ghost predicate EqualPieces(chunks: seq<Bytes>, size: nat) {
    forall i | 0 <= i < |chunks| :: 1 <= |chunks[i]| <= size && (i < |chunks| - 1 ==> |chunks[i]| == size)
  }

  lemma {:induction false} EqualSegments(source: Bytes, parts: nat, size: nat)
    requires source != [] && size >= 1 && |source| <= parts * size
    ensures var chunks := Segments(source, Repeat(size, parts));
            |chunks| == CeilDiv(|source|, size) && EqualPieces(chunks, size)
    decreases parts
  {
    Multiples(parts, size);
    if size < |source| {
      EqualSegments(source[size..], parts - 1, size);
      PieceInFront(source[..size], Segments(source[size..], Repeat(size, parts - 1)), size);
    }
  }

  lemma Multiples(parts: nat, size: nat)
    requires parts * size >= 1
    ensures parts >= 1 && (parts - 1) * size == parts * size - size
  {}

  lemma PieceInFront(piece: Bytes, rest: seq<Bytes>, size: nat)
    requires EqualPieces(rest, size) && |piece| == size >= 1
    ensures EqualPieces([piece] + rest, size)
  {}

  /**
   A non-empty buffer is split into exactly ceil(n / ceil(n / p)) non-empty pieces, at most the
   number asked for, at least two when two were asked for and there are two octets.
   */
  lemma EqualPartsExact(source: Bytes, count: int)
    requires source != []
    ensures var chunks, n, p := EqualParts(source, count), |source|, Parts(|source|, count);
            && |chunks| == CeilDiv(n, CeilDiv(n, p)) <= p
            && p == (if count < 1 then 1 else if count < n then count else n)
            && (count >= 2 && n >= 2 ==> |chunks| >= 2)
            && Concat(chunks) == source
            && EqualPieces(chunks, CeilDiv(n, p))
            && forall i | 0 <= i < |chunks| :: chunks[i] != []
  {
    var n, p := |source|, Parts(|source|, count);
    var size := CeilDiv(n, p);
    EqualSegments(source, p, size);
    SegmentsConcat(source, Repeat(size, p));
    PiecesBounded(n, p, size);
  }

  lemma PiecesBounded(n: nat, p: nat, size: nat)
    requires 1 <= p <= n && size == CeilDiv(n, p)
    ensures size >= 1 && CeilDiv(n, size) <= p
    ensures p >= 2 ==> CeilDiv(n, size) >= 2
  {
    var k := CeilDiv(n, size);
    SmallerFactor(k - 1, p, size);
    if p >= 2 { MulOrder(2, p, size - 1); }
  }

  lemma SmallerFactor(x: nat, y: nat, z: nat)
    requires x * z < y * z
    ensures x < y
  {
    if y <= x { MulOrder(y, x, z); }
  }

  lemma MulOrder(x: nat, y: nat, z: nat)
    requires x <= y
    ensures x * z <= y * z
  {}

  // ---------------------------------------------------------------- planning writes

  /** What `splitBuffer` returns. */
  function Split(source: Bytes, sizes: seq<nat>): seq<Bytes> {
    if source == [] then [[]] else Segments(source, sizes)
  }

  lemma SplitConcat(source: Bytes, sizes: seq<nat>)
    ensures Concat(Split(source, sizes)) == source
    ensures source == [] ==> Split(source, sizes) == [[]]
  {
    SegmentsConcat(source, sizes);
    assert Concat([[]]) == [];
  }

  /** How a scenario sends its payload: at once, or in the given sizes, or else in a number of parts. */
  datatype Transmission = AtOnce | Fragmented(sizes: seq<nat>, count: int)

  /** `planWrites` of packages/core/src/test-runner.ts */
  function PlanWrites(payload: Bytes, mode: Transmission): seq<Bytes> {
    match mode
    case AtOnce => [payload]
    case Fragmented(sizes, count) => if sizes != [] then Split(payload, sizes) else EqualParts(payload, count)
  }

  /** A fragmented payload is written in the sizes given, or else in the number of equal parts. */
  lemma HowPlanned(payload: Bytes, mode: Transmission)
    requires payload != []
    ensures var plan := PlanWrites(payload, mode);
            if mode.AtOnce? then plan == [payload]
            else if mode.sizes != [] then SizesFollowed(plan, mode.sizes)
            else && EqualPieces(plan, CeilDiv(|payload|, Parts(|payload|, mode.count)))
                 && (mode.count >= 2 && |payload| >= 2 ==> |plan| >= 2)
  {
    if mode.Fragmented? {
      SegmentSizes(payload, mode.sizes);
      EqualPartsExact(payload, mode.count);
    }
  }

  lemma PlanConcat(payload: Bytes, mode: Transmission)
    ensures Concat(PlanWrites(payload, mode)) == payload
  {
    assert Concat([payload]) == payload;
    if mode.Fragmented? {
      SplitConcat(payload, mode.sizes);
      if payload != [] { EqualPartsExact(payload, mode.count); }
    }
  }

  /**
   However a scenario splits its requests into writes and however TCP delivers those writes, the
   endpoint decodes the same requests as from one write.
   */
  lemma FragmentationInvisible(limits: Limits, ms: seq<Outgoing>, mode: Transmission, delivered: seq<Bytes>)
    requires AllFitSafely(limits, Requests, ms)
    requires Concat(delivered) == Concat(PlanWrites(Concat(Encodings(ms)), mode))
    ensures FeedAll(SltpFramer(limits, Requests), delivered) == Decoded(AllReported(ms), Waiting([]))
  {
    PlanConcat(Concat(Encodings(ms)), mode);
    PipelinedRoundTrip(limits, Requests, ms, delivered);
  }
}
