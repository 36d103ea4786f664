/**
 The framing rule of the decoder as a function of the bytes in its buffer, with header
 parsing left as a parameter: chunk boundaries do not matter for any deterministic parser.
 */
module Framing {
  import opened Octets
  import opened Reasons

  /** What one header block means: a parsed head and the body length it declares. */
  datatype HeadResult<+H> = Fault(reason: Reason) | Parsed(head: H, bodyBytes: nat)

  datatype Framer<H> = Framer(maxHeaderBlock: nat, maxMessage: nat, parse: Bytes -> HeadResult<H>)

  /** One turn of the framing loop on the buffer `b`. */
  datatype Turn<+H> = Wait | Refuse(reason: Reason) | Take(at: nat, head: H, total: nat)

  function Look<H>(f: Framer<H>, b: Bytes): (t: Turn<H>)
    ensures t.Take? ==> t.at == FindDelimiter(b, 0) && t.at + 4 <= t.total <= |b|
    ensures t.Wait? ==> |b| <= f.maxHeaderBlock || |b| < f.maxMessage
  {
    var at := FindDelimiter(b, 0);
    if at == -1 then
      if |b| > f.maxHeaderBlock then Refuse(HeaderBlockTooLarge) else Wait
    else if at > f.maxHeaderBlock then Refuse(HeaderBlockTooLarge)
    else
      match f.parse(b[..at])
      case Fault(reason) => Refuse(reason)
      case Parsed(head, bodyBytes) =>
        var total := at + 4 + bodyBytes;
        if total > f.maxMessage then Refuse(MessageTooLarge)
        else if |b| < total then Wait
        else Take(at, head, total)
  }

  /** A framed message: parsed head, body octets and the exact octets it occupied. */
  datatype Framed<+H> = Framed(head: H, body: Bytes, raw: Bytes)

  /** Where a decoder stands: waiting with buffered octets, or stopped. */
  datatype Standing = Waiting(rest: Bytes) | Stopped(reason: Reason, raw: Bytes)

  datatype Decoded<+H> = Decoded(messages: seq<Framed<H>>, standing: Standing)

  /** The message a `Take` turn yields. */
  function Cut<H>(b: Bytes, t: Turn<H>): Framed<H>
    requires t.Take? && t.at + 4 <= t.total <= |b|
  {
    Framed(t.head, b[t.at + 4..t.total], b[..t.total])
  }

  /** The whole framing loop on one buffer. */
  function Decode<H>(f: Framer<H>, b: Bytes): Decoded<H>
    decreases |b|
  {
    var t := Look(f, b);
    match t
    case Wait => Decoded([], Waiting(b))
    case Refuse(reason) => Decoded([], Stopped(reason, b))
    case Take(_, _, total) =>
      var later := Decode(f, b[total..]);
      Decoded([Cut(b, t)] + later.messages, later.standing)
  }

  /** One `push`: a stopped decoder ignores the chunk. */
  function Feed<H>(f: Framer<H>, d: Decoded<H>, chunk: Bytes): Decoded<H> {
    match d.standing
    case Stopped(_, _) => d
    case Waiting(rest) =>
      var now := Decode(f, rest + chunk);
      Decoded(d.messages + now.messages, now.standing)
  }

  /** Everything a fresh decoder has produced after the pushes `chunks`. */
  function FeedAll<H>(f: Framer<H>, chunks: seq<Bytes>): Decoded<H> {
    if chunks == [] then Decoded([], Waiting([]))
    else Feed(f, FeedAll(f, chunks[..|chunks| - 1]), chunks[|chunks| - 1])
  }

  /** What one chunk completes: nothing once the decoder has stopped. */
  function Completed<H>(f: Framer<H>, history: Decoded<H>, chunk: Bytes): Decoded<H> {
    match history.standing
    case Stopped(_, _) => Decoded([], Waiting([]))
    case Waiting(rest) => Decode(f, rest + chunk)
  }

  lemma FeedStep<H>(f: Framer<H>, chunks: seq<Bytes>, chunk: Bytes)
    ensures FeedAll(f, chunks + [chunk]) == Feed(f, FeedAll(f, chunks), chunk)
  {
    var all := chunks + [chunk];
    assert all[..|all| - 1] == chunks;
  }

  /** `end`: octets still waiting are a truncated message. */
  function End<H>(d: Decoded<H>): Decoded<H> {
    if d.standing.Waiting? && d.standing.rest != []
    then d.(standing := Stopped(TruncatedMessage, d.standing.rest))
    else d
  }

  /** Equal messages, raw octets included, and equal standing; only a failure's raw may differ. */
  ghost predicate SameView<H(!new)>(a: Decoded<H>, b: Decoded<H>) {
    && a.messages == b.messages
    && match a.standing
       case Waiting(rest) => b.standing == Waiting(rest)
       case Stopped(reason, _) => b.standing.Stopped? && b.standing.reason == reason
  }

  // ---------------------------------------------------------------- chunk boundaries

  /** The header block at the front of `b` is one whose delimiter may push the buffer over the limit. */
  predicate InWindow<H>(f: Framer<H>, b: Bytes) {
    var at := FindDelimiter(b, 0);
    at >= 0 && f.maxHeaderBlock < at + 3 && at <= f.maxHeaderBlock
  }

  /** No header block that decoding `b` reaches lies in the window. */
  predicate WindowFree<H>(f: Framer<H>, b: Bytes)
    decreases |b|
  {
    && !InWindow(f, b)
    && var t := Look(f, b); t.Take? ==> WindowFree(f, b[t.total..])
  }

  /** The parser itself never reports an oversized header block. */
  ghost predicate ParserIsLocal<H(!new)>(f: Framer<H>) {
    forall block :: f.parse(block) != Fault(HeaderBlockTooLarge)
  }

  /** A turn that settled on `b` settles the same way when more octets follow. */
  lemma LookExtended<H>(f: Framer<H>, b: Bytes, more: Bytes)
    ensures Look(f, b).Take? ==> Look(f, b + more) == Look(f, b)
    ensures Look(f, b).Refuse? && !InWindow(f, b + more) ==> Look(f, b + more) == Look(f, b)
  {
    FindExtended(b, more);
    var at := FindDelimiter(b, 0);
    if at != -1 { assert (b + more)[..at] == b[..at]; }
  }

  /** Decoding a stream at once shows what decoding a prefix and then feeding the rest shows. */
  lemma {:induction false} DecodeSplit<H(!new)>(f: Framer<H>, b: Bytes, more: Bytes)
    requires WindowFree(f, b + more)
    ensures SameView(Feed(f, Decode(f, b), more), Decode(f, b + more))
    decreases |b|
  {
    LookExtended(f, b, more);
    var t := Look(f, b);
    if t.Take? {
      CutExtended(b, t, more);
      DecodeSplit(f, b[t.total..], more);
      PrependFeed(f, Cut(b, t), Decode(f, b[t.total..]), more);
    }
  }

  lemma CutExtended<H>(b: Bytes, t: Turn<H>, more: Bytes)
    requires t.Take? && t.at + 4 <= t.total <= |b|
    ensures Cut(b + more, t) == Cut(b, t)
    ensures (b + more)[t.total..] == b[t.total..] + more
  {
    assert (b + more)[..t.total] == b[..t.total];
    assert (b + more)[t.at + 4..t.total] == b[t.at + 4..t.total];
  }

  /** Feeding goes on behind the messages already there. */
  lemma PrependFeed<H>(f: Framer<H>, m: Framed<H>, d: Decoded<H>, more: Bytes)
    ensures var fed := Feed(f, d, more);
            Feed(f, Decoded([m] + d.messages, d.standing), more) == Decoded([m] + fed.messages, fed.standing)
  {
    if d.standing.Waiting? {
      var now := Decode(f, d.standing.rest + more);
      assert [m] + d.messages + now.messages == [m] + (d.messages + now.messages);
    }
  }

  /** Feeding preserves the view. */
  lemma FeedSame<H(!new)>(f: Framer<H>, a: Decoded<H>, b: Decoded<H>, chunk: Bytes)
    requires SameView(a, b)
    ensures SameView(Feed(f, a, chunk), Feed(f, b, chunk))
  {}

  /** Every prefix of a window-free stream is window-free. */
  lemma {:induction false} WindowFreePrefix<H>(f: Framer<H>, b: Bytes, more: Bytes)
    requires WindowFree(f, b + more)
    ensures WindowFree(f, b)
    decreases |b|
  {
    LookExtended(f, b, more);
    FindExtended(b, more);
    var t := Look(f, b);
    if t.Take? {
      assert (b + more)[t.total..] == b[t.total..] + more;
      WindowFreePrefix(f, b[t.total..], more);
    }
  }

  /** Any partition of a window-free stream shows what one push of the stream shows. */
  lemma {:induction false} ChunksDoNotMatter<H(!new)>(f: Framer<H>, chunks: seq<Bytes>)
    requires WindowFree(f, Concat(chunks))
    ensures SameView(FeedAll(f, chunks), Decode(f, Concat(chunks)))
    decreases |chunks|
  {
    if chunks != [] {
      var init, last := chunks[..|chunks| - 1], chunks[|chunks| - 1];
      assert chunks == init + [last];
      ConcatSnoc(init, last);
      WindowFreePrefix(f, Concat(init), last);
      ChunksDoNotMatter(f, init);
      FeedSame(f, FeedAll(f, init), Decode(f, Concat(init)), last);
      DecodeSplit(f, Concat(init), last);
    }
  }

  /** Where to cut a stream that is not window-free: just before the offending delimiter's LF. */
  function BadCut<H>(f: Framer<H>, b: Bytes): (k: nat)
    requires !WindowFree(f, b)
    ensures k <= |b|
    decreases |b|
  {
    if InWindow(f, b) then FindDelimiter(b, 0) + 3
    else
      var t := Look(f, b);
      t.total + BadCut(f, b[t.total..])
  }

  /** A prefix that holds the whole first message yields it too. */
  lemma LookInPrefix<H>(f: Framer<H>, b: Bytes, k: nat)
    requires Look(f, b).Take? && Look(f, b).total <= k <= |b|
    ensures var p, t := b[..k], Look(f, b);
            && Look(f, p) == t && Cut(p, t) == Cut(b, t)
            && p[t.total..] == b[t.total..][..k - t.total]
  {
    var p, t := b[..k], Look(f, b);
    FindInPrefix(b, k);
    assert p[..t.at] == b[..t.at];
    assert p[..t.total] == b[..t.total];
    assert p[t.at + 4..t.total] == b[t.at + 4..t.total];
  }

  /** Cut there, the decoder refuses an oversized header block; in one push it does not. */
  lemma {:induction false} BadCutDiffers<H(!new)>(f: Framer<H>, b: Bytes)
    requires ParserIsLocal(f) && !WindowFree(f, b)
    ensures var k := BadCut(f, b);
            Decode(f, b[..k]).standing.Stopped?
            && !SameView(Decode(f, b[..k]), Decode(f, b))
    decreases |b|
  {
    if InWindow(f, b) {
      RefusedAtOnce(f, b);
    } else {
      var t, k := Look(f, b), BadCut(f, b);
      var rest := b[t.total..];
      BadCutDiffers(f, rest);
      PrependDiffers(Cut(b, t), Decode(f, rest[..BadCut(f, rest)]), Decode(f, rest));
      DecodePrefix(f, b, k);
    }
  }

  lemma DecodePrefix<H>(f: Framer<H>, b: Bytes, k: nat)
    requires Look(f, b).Take? && Look(f, b).total <= k <= |b|
    ensures var t := Look(f, b);
            var later := Decode(f, b[t.total..][..k - t.total]);
            Decode(f, b[..k]) == Decoded([Cut(b, t)] + later.messages, later.standing)
  {
    LookInPrefix(f, b, k);
  }

  lemma RefusedAtOnce<H(!new)>(f: Framer<H>, b: Bytes)
    requires ParserIsLocal(f) && InWindow(f, b)
    ensures var p := b[..FindDelimiter(b, 0) + 3];
            && Decode(f, p) == Decoded([], Stopped(HeaderBlockTooLarge, p))
            && !SameView(Decode(f, p), Decode(f, b))
  {
    FindInPrefix(b, FindDelimiter(b, 0) + 3);
  }

  lemma PrependDiffers<H(!new)>(m: Framed<H>, a: Decoded<H>, b: Decoded<H>)
    requires !SameView(a, b)
    ensures !SameView(Decoded([m] + a.messages, a.standing), Decoded([m] + b.messages, b.standing))
  {
    assert ([m] + a.messages)[1..] == a.messages && ([m] + b.messages)[1..] == b.messages;
  }

  /** Every partition of `s` into chunks shows what pushing `s` at once shows. */
  ghost predicate ChunkingInvisible<H(!new)>(f: Framer<H>, s: Bytes) {
    forall chunks :: Concat(chunks) == s ==> SameView(FeedAll(f, chunks), FeedAll(f, [s]))
  }

  /**
   Chunk boundaries are invisible exactly on the streams none of whose header blocks fall in
   the three-octet window below the limit.
   */
  lemma ChunkingInvisibleIff<H(!new)>(f: Framer<H>, s: Bytes)
    requires ParserIsLocal(f)
    ensures ChunkingInvisible(f, s) <==> WindowFree(f, s)
  {
    if WindowFree(f, s) {
      forall chunks | Concat(chunks) == s ensures SameView(FeedAll(f, chunks), FeedAll(f, [s])) {
        OnePush(f, s);
        ChunksDoNotMatter(f, chunks);
      }
    } else {
      WindowIsVisible(f, s);
    }
  }

  lemma WindowIsVisible<H(!new)>(f: Framer<H>, s: Bytes)
    requires ParserIsLocal(f) && !WindowFree(f, s)
    ensures !ChunkingInvisible(f, s)
  {
    var k := BadCut(f, s);
    BadCutDiffers(f, s);
    StoppedStaysStopped(f, s[..k], s[k..]);
    OnePush(f, s);
    TwoParts(s, k);
    Distinguishes(f, s, [s[..k], s[k..]]);
  }

  lemma Distinguishes<H(!new)>(f: Framer<H>, s: Bytes, chunks: seq<Bytes>)
    requires Concat(chunks) == s && !SameView(FeedAll(f, chunks), FeedAll(f, [s]))
    ensures !ChunkingInvisible(f, s)
  {}

  lemma StoppedStaysStopped<H>(f: Framer<H>, a: Bytes, b: Bytes)
    requires Decode(f, a).standing.Stopped?
    ensures FeedAll(f, [a, b]) == Decode(f, a)
  {
    assert [a, b][..1] == [a];
    OnePush(f, a);
  }

  /** A chunk ending before the last octet of a delimiter in the window is refused as oversized. */
  lemma WindowRefusesPrefix<H>(f: Framer<H>, e: Bytes)
    requires InWindow(f, e)
    ensures var k := FindDelimiter(e, 0) + 3;
            && k <= |e| && Concat([e[..k], e[k..]]) == e
            && FeedAll(f, [e[..k], e[k..]]) == Decoded([], Stopped(HeaderBlockTooLarge, e[..k]))
  {
    var k := FindDelimiter(e, 0) + 3;
    FindInPrefix(e, k);
    StoppedStaysStopped(f, e[..k], e[k..]);
    TwoParts(e, k);
  }

  lemma OnePush<H>(f: Framer<H>, s: Bytes)
    ensures FeedAll(f, [s]) == Decode(f, s)
  {
    assert [s][..0] == [];
    assert [] + s == s;
    var d := FeedAll<H>(f, []);
    assert d.messages + Decode(f, s).messages == Decode(f, s).messages;
  }

  // ---------------------------------------------------------------- conservation

  /** The octets of the emitted messages, in order. */
  function Raws<H>(messages: seq<Framed<H>>): Bytes {
    if messages == [] then [] else messages[0].raw + Raws(messages[1..])
  }

  /** The octets not turned into a message: still buffered, or reported with the failure. */
  function Tail(standing: Standing): Bytes {
    match standing
    case Waiting(rest) => rest
    case Stopped(_, raw) => raw
  }

  lemma {:induction false} RawsAppend<H>(a: seq<Framed<H>>, b: seq<Framed<H>>)
    ensures Raws(a + b) == Raws(a) + Raws(b)
  {
    if a == [] {
      assert a + b == b;
    } else {
      assert (a + b)[1..] == a[1..] + b;
      RawsAppend(a[1..], b);
    }
  }

  lemma RawsCons<H>(m: Framed<H>, ms: seq<Framed<H>>)
    ensures Raws([m] + ms) == m.raw + Raws(ms)
  {
    assert ([m] + ms)[1..] == ms;
  }

  lemma {:induction false} DecodeConserves<H>(f: Framer<H>, b: Bytes)
    ensures var d := Decode(f, b); Raws(d.messages) + Tail(d.standing) == b
    decreases |b|
  {
    var t := Look(f, b);
    if t.Take? {
      DecodeConserves(f, b[t.total..]);
      var later := Decode(f, b[t.total..]);
      RawsCons(Cut(b, t), later.messages);
      Account(b, t.total, Raws(later.messages), Tail(later.standing));
    }
  }

  /** The octets a decoder accepted: everything pushed before it stopped. */
  function Accepted<H>(f: Framer<H>, chunks: seq<Bytes>): Bytes {
    if chunks == [] then []
    else
      var init := chunks[..|chunks| - 1];
      if FeedAll(f, init).standing.Stopped? then Accepted(f, init)
      else Accepted(f, init) + chunks[|chunks| - 1]
  }

  /** Every accepted octet is in exactly one emitted message or in the tail, in order. */
  lemma {:induction false} OctetsConserved<H>(f: Framer<H>, chunks: seq<Bytes>)
    ensures var d := FeedAll(f, chunks);
            && Raws(d.messages) + Tail(d.standing) == Accepted(f, chunks)
            && Accepted(f, chunks) <= Concat(chunks)
            && (d.standing.Waiting? ==> Accepted(f, chunks) == Concat(chunks))
    decreases |chunks|
  {
    if chunks != [] {
      var init, last := chunks[..|chunks| - 1], chunks[|chunks| - 1];
      assert chunks == init + [last];
      ConcatSnoc(init, last);
      OctetsConserved(f, init);
      var d := FeedAll(f, init);
      if d.standing.Waiting? {
        var now := Decode(f, d.standing.rest + last);
        DecodeConserves(f, d.standing.rest + last);
        RawsAppend(d.messages, now.messages);
        Reassociate(Raws(d.messages), Raws(now.messages), Tail(now.standing));
        Reassociate(Raws(d.messages), d.standing.rest, last);
      }
    }
  }

  /** A decoder still waiting waits on its own buffer, which is bounded by the limits. */
  lemma {:induction false} WaitingIsBounded<H>(f: Framer<H>, b: Bytes)
    ensures var s := Decode(f, b).standing;
            s.Waiting? ==> && Look(f, s.rest).Wait?
                           && (|s.rest| <= f.maxHeaderBlock || |s.rest| < f.maxMessage)
    decreases |b|
  {
    var t := Look(f, b);
    if t.Take? { WaitingIsBounded(f, b[t.total..]); }
  }

  // ---------------------------------------------------------------- whole frames

  /** `e` is exactly one message, with its header block below the window. */
  predicate IsFrame<H>(f: Framer<H>, e: Bytes) {
    var t := Look(f, e);
    t.Take? && t.total == |e| && t.at + 3 <= f.maxHeaderBlock
  }

  function FrameOf<H>(f: Framer<H>, e: Bytes): Framed<H>
    requires IsFrame(f, e)
  {
    Cut(e, Look(f, e))
  }

  predicate AllFrames<H>(f: Framer<H>, es: seq<Bytes>) {
    forall i | 0 <= i < |es| :: IsFrame(f, es[i])
  }

  function FramesOf<H>(f: Framer<H>, es: seq<Bytes>): (ms: seq<Framed<H>>)
    requires AllFrames(f, es)
    ensures |ms| == |es| && forall i | 0 <= i < |es| :: ms[i] == FrameOf(f, es[i])
  {
    if es == [] then [] else [FrameOf(f, es[0])] + FramesOf(f, es[1..])
  }

  /** A proper prefix of a frame is neither a message nor a failure. */
  lemma ProperPrefixWaits<H>(f: Framer<H>, e: Bytes, k: nat)
    requires IsFrame(f, e) && k < |e|
    ensures Look(f, e[..k]).Wait?
  {
    FindInPrefix(e, k);
    var at := FindDelimiter(e, 0);
    if at + 4 <= k { assert e[..k][..at] == e[..at]; }
  }

  /** No frame is a proper prefix of another. */
  lemma PrefixFree<H>(f: Framer<H>, e: Bytes, e': Bytes)
    requires IsFrame(f, e) && IsFrame(f, e') && e <= e'
    ensures e == e'
  {
    if |e| < |e'| {
      assert e'[..|e|] == e;
      ProperPrefixWaits(f, e', |e|);
      assert false;
    }
  }

  /** How many whole frames of `es` lie within the first `k` octets. */
  function WholeFrames(es: seq<Bytes>, k: nat): (n: nat)
    ensures n <= |es|
    ensures |Concat(es[..n])| <= k
    ensures n < |es| ==> k < |Concat(es[..n + 1])|
  {
    if es == [] || k < |es[0]| then
      assert es != [] ==> es[..1] == [es[0]] && Concat(es[..1]) == es[0] + Concat([]);
      0
    else
      var n := WholeFrames(es[1..], k - |es[0]|);
      assert es[..n + 1][1..] == es[1..][..n];
      assert n + 1 < |es| ==> es[..n + 2][1..] == es[1..][..n + 1];
      n + 1
  }

  /** A frame at the front of a buffer comes out first and leaves the rest to be decoded. */
  lemma DecodeAfterFrame<H>(f: Framer<H>, e: Bytes, more: Bytes)
    requires IsFrame(f, e)
    ensures var later := Decode(f, more);
            Decode(f, e + more) == Decoded([FrameOf(f, e)] + later.messages, later.standing)
    ensures WindowFree(f, more) ==> WindowFree(f, e + more)
  {
    var s, t := e + more, Look(f, e);
    LookExtended(f, e, more);
    FindExtended(e, more);
    assert s[|e|..] == more && s[..|e|] == e[..|e|] && s[t.at + 4..|e|] == e[t.at + 4..|e|];
    assert Cut(s, t) == FrameOf(f, e);
  }

  /** Whole frames followed by octets that do not settle decode to the frames, in order. */
  lemma {:induction false} DecodeFrames<H>(f: Framer<H>, es: seq<Bytes>, p: Bytes)
    requires AllFrames(f, es) && Look(f, p).Wait? && !InWindow(f, p)
    ensures Decode(f, Concat(es) + p) == Decoded(FramesOf(f, es), Waiting(p))
    ensures WindowFree(f, Concat(es) + p)
    decreases |es|
  {
    if es == [] {
      assert Concat(es) + p == p;
    } else {
      Reassociate(es[0], Concat(es[1..]), p);
      DecodeFrames(f, es[1..], p);
      DecodeAfterFrame(f, es[0], Concat(es[1..]) + p);
    }
  }

  /** The part of the frame that the cut after `k` octets falls in. */
  function CutPart(es: seq<Bytes>, k: nat): (p: Bytes)
    requires k <= |Concat(es)|
    ensures |p| == k - |Concat(es[..WholeFrames(es, k)])|
    ensures Concat(es)[..k] == Concat(es[..WholeFrames(es, k)]) + p
    ensures p == [] || (var n := WholeFrames(es, k); n < |es| && |p| < |es[n]| && p == es[n][..|p|])
  {
    var n := WholeFrames(es, k);
    var r := k - |Concat(es[..n])|;
    assert es == es[..n] + es[n..];
    ConcatAppend(es[..n], es[n..]);
    if n < |es| then
      assert es[..n + 1] == es[..n] + [es[n]];
      ConcatSnoc(es[..n], es[n]);
      es[n][..r]
    else
      []
  }

  /** Part of a frame, or nothing, waits and is outside the window. */
  lemma PartWaits<H>(f: Framer<H>, es: seq<Bytes>, k: nat)
    requires AllFrames(f, es) && k <= |Concat(es)|
    ensures var p := CutPart(es, k); Look(f, p).Wait? && !InWindow(f, p)
  {
    var n, p := WholeFrames(es, k), CutPart(es, k);
    if p != [] {
      ProperPrefixWaits(f, es[n], |p|);
      FindInPrefix(es[n], |p|);
    }
  }

  /**
   A stream of frames cut after `k` octets decodes to precisely the frames wholly before the
   cut; ending there reports a truncated message exactly when the cut is not a frame boundary.
   */
  lemma CutStream<H>(f: Framer<H>, es: seq<Bytes>, k: nat)
    requires AllFrames(f, es) && k <= |Concat(es)|
    ensures var n, p, d := WholeFrames(es, k), CutPart(es, k), Decode(f, Concat(es)[..k]);
            && d == Decoded(FramesOf(f, es[..n]), Waiting(p))
            && End(d) == (if k == |Concat(es[..n])| then d
                          else d.(standing := Stopped(TruncatedMessage, p)))
    ensures WindowFree(f, Concat(es)[..k])
  {
    PartWaits(f, es, k);
    DecodeFrames(f, es[..WholeFrames(es, k)], CutPart(es, k));
  }

  lemma FramesOfPrefix<H>(f: Framer<H>, es: seq<Bytes>, n: nat)
    requires AllFrames(f, es) && n <= |es|
    ensures FramesOf(f, es[..n]) == FramesOf(f, es)[..n]
  {}

  /** The same under any chunking of what is left after the cut. */
  lemma {:induction false} CutStreamInChunks<H(!new)>(f: Framer<H>, es: seq<Bytes>, k: nat, chunks: seq<Bytes>)
    requires AllFrames(f, es) && k <= |Concat(es)| && Concat(chunks) == Concat(es)[..k]
    ensures var n, p, d := WholeFrames(es, k), CutPart(es, k), FeedAll(f, chunks);
            && d == Decoded(FramesOf(f, es)[..n], Waiting(p))
            && End(d) == (if k == |Concat(es[..n])| then d
                          else d.(standing := Stopped(TruncatedMessage, p)))
  {
    CutStream(f, es, k);
    ChunksDoNotMatter(f, chunks);
    FramesOfPrefix(f, es, WholeFrames(es, k));
  }

  /** A buffer that is one header block, a delimiter and the declared body settles at once. */
  lemma LookLaidOut<H>(f: Framer<H>, e: Bytes, block: Bytes, body: Bytes)
    requires FindDelimiter(e, 0) == |block| && |e| == |block| + 4 + |body|
    requires e[..|block|] == block && e[|block| + 4..] == body
    requires f.parse(block).Parsed? ==> f.parse(block).bodyBytes == |body|
    ensures var t, r := Look(f, e), f.parse(block);
            && !t.Wait?
            && (t.Take? <==> r.Parsed? && |block| <= f.maxHeaderBlock && |e| <= f.maxMessage)
            && (t.Take? ==> t.total == |e| && Cut(e, t) == Framed(r.head, body, e))
            && (t.Refuse? ==> t.reason == if |block| > f.maxHeaderBlock then HeaderBlockTooLarge
                                          else if r.Fault? then r.reason else MessageTooLarge)
  {}
}
