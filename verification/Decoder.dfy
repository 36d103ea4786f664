/** The incremental decoder (packages/protocol/src/decoder.ts): one byte stream, one instance. */
module Decoder {
  import opened Octets
  import opened Reasons
  import opened HeaderParser
  import opened Framing

  /** Header parsing and body-length resolution as one function of the header block. */
  function ParseHead(limits: Limits, kind: Kind, block: Bytes): HeadResult<Head> {
    match ParseBlock(limits, kind, block)
    case Err(reason) => Fault(reason)
    case Ok(head) =>
      match ContentLength(limits, head.headers)
      case Err(reason) => Fault(reason)
      case Ok(bodyBytes) => Parsed(head, bodyBytes)
  }

  function SltpFramer(limits: Limits, kind: Kind): Framer<Head> {
    Framer(limits.maxHeaderBlockBytes, limits.maxMessageBytes, block => ParseHead(limits, kind, block))
  }

  lemma SltpParserIsLocal(limits: Limits, kind: Kind)
    ensures ParserIsLocal(SltpFramer(limits, kind))
  {
    forall block ensures ParseHead(limits, kind, block) != Fault(HeaderBlockTooLarge) {
      ParserReasons(limits, kind, block);
    }
  }

  /**
   The chunking law on the protocol's own parser: a stream is decoded the same way under every
   partition into chunks exactly when no header block it reaches is 0 to 2 octets under the limit.
   */
  lemma SltpChunkingInvisibleIff(limits: Limits, kind: Kind, s: Bytes)
    ensures var f := SltpFramer(limits, kind); ChunkingInvisible(f, s) <==> WindowFree(f, s)
  {
    SltpParserIsLocal(limits, kind);
    ChunkingInvisibleIff(SltpFramer(limits, kind), s);
  }

  datatype Event = MessageEvent(message: Framed<Head>) | ErrorEvent(reason: Reason, raw: Bytes)

  /** The events of one `drain`: its messages in order, then the failure if there is one. */
  function Events(d: Decoded<Head>): seq<Event>
    decreases |d.messages|
  {
    if d.messages != [] then
      [MessageEvent(d.messages[0])] + Events(d.(messages := d.messages[1..]))
    else
      match d.standing
      case Waiting(_) => []
      case Stopped(reason, raw) => [ErrorEvent(reason, raw)]
  }

  /** A decoder set up for one kind yields that kind only: a server never meets a response. */
  lemma {:induction false} OnlyExpectedKind(limits: Limits, kind: Kind, b: Bytes)
    ensures forall m <- Decode(SltpFramer(limits, kind), b).messages :: Suits(kind, m.head.start)
    decreases |b|
  {
    var t := Look(SltpFramer(limits, kind), b);
    if t.Take? {
      ExpectedHead(limits, kind, b[..t.at]);
      OnlyExpectedKind(limits, kind, b[t.total..]);
    }
  }

  lemma ExpectedHead(limits: Limits, kind: Kind, block: Bytes)
    ensures var r := ParseHead(limits, kind, block); r.Parsed? ==> Suits(kind, r.head.start)
  {
    ExpectedStart(kind, SplitLines(block)[0]);
    var parsed := ParseBlock(limits, kind, block);
    assert parsed.Ok? ==> Ok(parsed.value.start) == ParseStartLine(kind, SplitLines(block)[0]);
  }

  lemma ExpectedStart(kind: Kind, line: Bytes)
    ensures var r := ParseStartLine(kind, line); r.Ok? ==> Suits(kind, r.value)
  {}

  /** Nothing before the resumable search position begins a delimiter. */
  ghost predicate CursorSound(buffer: Bytes, searchOffset: nat) {
    && searchOffset <= |buffer|
    && forall i {:trigger DelimiterAt(buffer, i)} :: 0 <= i < searchOffset - 3 ==> !DelimiterAt(buffer, i)
  }

  /** Where a resumed search starts: three octets back, for a delimiter straddling two chunks. */
  function ResumeAt(searchOffset: nat): nat {
    if searchOffset < 3 then 0 else searchOffset - 3
  }

  /** `indexOf`, counting the start positions it looks at. */
  method Search(b: Bytes, start: nat) returns (at: int, ghost looked: nat)
    ensures at == FindDelimiter(b, start)
    ensures looked == if at != -1 then at - start + 1 else if start + 3 < |b| then |b| - 3 - start else 0
  {
    var i := start;
    looked := 0;
    while i + 4 <= |b|
      invariant i == start + looked
      invariant i + 4 <= |b| + 1 || i == start
      invariant FindDelimiter(b, start) == FindDelimiter(b, i)
    {
      looked := looked + 1;
      if DelimiterAt(b, i) {
        return i, looked;
      }
      i := i + 1;
    }
    at := -1;
  }

  class SltpDecoder {
    var buffer: Bytes
    var searchOffset: nat
    var poisoned: bool
    const limits: Limits
    const kind: Kind

    /** All that was decoded since construction or the last reset. */
    ghost var history: Decoded<Head>
    /** The octets accepted since construction or the last reset. */
    ghost var accepted: Bytes
    /** Lifetime counters: octets pushed, pushes, and search start positions looked at. */
    ghost var pushedBytes: nat
    ghost var pushes: nat
    ghost var looked: nat

    ghost function F(): Framer<Head> { SltpFramer(limits, kind) }

    ghost predicate Valid()
      reads this
    {
      && CursorSound(buffer, searchOffset)
      && Settled(history.standing)
      && (!poisoned ==> Look(F(), buffer).Wait?)
      // Conservation: every accepted octet is in a message, in the buffer or in the failure.
      && Raws(history.messages) + Tail(history.standing) == accepted
      // Amortised search cost; the potential is the unscanned part of the buffer.
      && looked + (|buffer| - searchOffset) <= pushedBytes + 4 * pushes
    }

    constructor (limits: Limits, kind: Kind)
      ensures Valid() && this.limits == limits && this.kind == kind
      ensures history == Decoded([], Waiting([])) && accepted == []
      ensures pushedBytes == pushes == looked == 0
    {
      buffer, searchOffset, poisoned := [], 0, false;
      this.limits, this.kind := limits, kind;
      history, accepted := Decoded([], Waiting([])), [];
      pushedBytes, pushes, looked := 0, 0, 0;
    }

    method Reset()
      requires Valid()
      modifies this
      ensures Valid() && history == Decoded([], Waiting([])) && accepted == []
      ensures pushedBytes == old(pushedBytes) && pushes == old(pushes) && looked == old(looked)
    {
      buffer, searchOffset, poisoned := [], 0, false;
      history, accepted := Decoded([], Waiting([])), [];
    }

    method Push(chunk: Bytes) returns (events: seq<Event>)
      requires Valid()
      modifies this
      ensures Valid()
      ensures history == Feed(F(), old(history), chunk)
      ensures events == if old(poisoned) then [] else Events(Decode(F(), old(buffer) + chunk))
      ensures accepted == if old(poisoned) then old(accepted) else old(accepted) + chunk
      ensures pushes == old(pushes) + 1 && pushedBytes == old(pushedBytes) + |chunk|
      ensures |buffer| <= limits.maxHeaderBlockBytes || |buffer| < limits.maxMessageBytes
    {
      pushes, pushedBytes := pushes + 1, pushedBytes + |chunk|;
      if poisoned {
        return [];
      }
      accepted := accepted + chunk;
      history := Feed(F(), history, chunk);
      PushHistory(F(), old(history), chunk);
      CursorExtended(buffer, chunk, searchOffset);
      buffer := buffer + chunk;
      WaitingIsBounded(F(), buffer);
      events := Drain();
    }

    method End() returns (events: seq<Event>)
      requires Valid()
      modifies this
      ensures Valid()
      ensures history == Framing.End(old(history)) && accepted == old(accepted)
      ensures events == if history == old(history) then [] else [ErrorEvent(TruncatedMessage, old(buffer))]
      ensures pushedBytes == old(pushedBytes) && pushes == old(pushes) && looked == old(looked)
    {
      if |buffer| == 0 || poisoned {
        return [];
      }
      var leftover := buffer;
      history := Framing.End(history);
      buffer, searchOffset, poisoned := [], 0, true;
      events := [ErrorEvent(TruncatedMessage, leftover)];
    }

    /** The framing loop: as many messages as the buffer holds, resuming the delimiter search. */
    method Drain() returns (events: seq<Event>)
      requires !poisoned && CursorSound(buffer, searchOffset)
      modifies `buffer, `searchOffset, `poisoned, `looked
      ensures events == Events(Decode(F(), old(buffer)))
      ensures Settled(Decode(F(), old(buffer)).standing)
      ensures CursorSound(buffer, searchOffset)
      ensures looked + (|buffer| - searchOffset) <= old(looked) + (|old(buffer)| - old(searchOffset)) + 4
    {
      events := [];
      ghost var f := F();
      ghost var whole, settled := Events(Decode(f, buffer)), Decode(f, buffer).standing;
      ghost var budget := looked + |buffer| - searchOffset;
      var more := true;
      while more
        invariant CursorSound(buffer, searchOffset)
        invariant more ==> && !poisoned
                           && whole == events + Events(Decode(f, buffer))
                           && settled == Decode(f, buffer).standing
                           && looked + (|buffer| - searchOffset) <= budget
        invariant !more ==> && whole == events && Settled(settled)
                            && looked + (|buffer| - searchOffset) <= budget + 4
        decreases more, |buffer|
      {
        EventsSoFar(f, buffer, events);
        var turn, emitted := TakeTurn();
        events := events + emitted;
        EventsTurn(f, []);
        more := turn.Take? && |buffer| != 0;
      }
    }

    /** One turn: the events it adds, the buffer it leaves, and the potential it spends. */
    method TakeTurn() returns (turn: Turn<Head>, emitted: seq<Event>)
      requires !poisoned && CursorSound(buffer, searchOffset)
      modifies `buffer, `searchOffset, `poisoned, `looked
      ensures turn == Look(F(), old(buffer))
      ensures turn.Wait? ==> emitted == [] && !poisoned && buffer == old(buffer)
      ensures turn.Refuse? ==> && emitted == [ErrorEvent(turn.reason, old(buffer))]
                               && poisoned && buffer == [] && searchOffset == 0
      ensures turn.Take? ==> && emitted == [MessageEvent(Cut(old(buffer), turn))]
                             && !poisoned && buffer == old(buffer)[turn.total..]
      ensures CursorSound(buffer, searchOffset)
      ensures looked + (|buffer| - searchOffset)
              <= old(looked) + (|old(buffer)| - old(searchOffset)) + if turn.Take? then 0 else 4
    {
      var delimiterAt := Locate();
      turn := Inspect(delimiterAt);
      if turn.Refuse? {
        var event := Fail(turn.reason);
        return turn, [event];
      }
      if turn.Wait? {
        // All scanned; or the header block is complete and the body is awaited.
        searchOffset := if delimiterAt == -1 then |buffer| else delimiterAt;
        return turn, [];
      }
      emitted := [MessageEvent(Cut(buffer, turn))];
      buffer := buffer[turn.total..];
      searchOffset := 0;
    }

    /** Step 1 of a turn: the end of the header block, searched from where the last search stopped. */
    method Locate() returns (delimiterAt: int)
      requires CursorSound(buffer, searchOffset)
      modifies `looked
      ensures delimiterAt == FindDelimiter(buffer, 0)
      ensures looked - old(looked) + searchOffset <= if delimiterAt == -1 then |buffer| else delimiterAt + 4
    {
      var start := ResumeAt(searchOffset);
      FindResumes(buffer, start);
      ghost var steps;
      delimiterAt, steps := Search(buffer, start);
      looked := looked + steps;
    }

    /** Steps 2 to 5 of a turn: what the framing rule says about the buffer. */
    method Inspect(delimiterAt: int) returns (turn: Turn<Head>)
      requires delimiterAt == FindDelimiter(buffer, 0)
      ensures turn == Look(F(), buffer)
      ensures turn.Refuse? ==> IsFatal(turn.reason)
    {
      if delimiterAt == -1 {
        if |buffer| > limits.maxHeaderBlockBytes {
          return Refuse(HeaderBlockTooLarge);
        }
        return Wait;
      }
      var headerBlock := buffer[..delimiterAt];
      if |headerBlock| > limits.maxHeaderBlockBytes {
        return Refuse(HeaderBlockTooLarge);
      }
      var parsed := ReadHead(headerBlock);
      if parsed.Fault? {
        return Refuse(parsed.reason);
      }
      var bodyStart := delimiterAt + 4;
      var totalBytes := bodyStart + parsed.bodyBytes;
      if totalBytes > limits.maxMessageBytes {
        return Refuse(MessageTooLarge);
      }
      if |buffer| < totalBytes {
        return Wait;
      }
      return Take(delimiterAt, parsed.head, totalBytes);
    }

    /** How the fields record a standing. */
    ghost predicate Settled(standing: Standing)
      reads this
    {
      match standing
      case Waiting(rest) => !poisoned && buffer == rest
      case Stopped(_, _) => poisoned && buffer == [] && searchOffset == 0
    }

    /** Parses the header block, then resolves the body length it declares. */
    method ReadHead(headerBlock: Bytes) returns (r: HeadResult<Head>)
      ensures r == ParseHead(limits, kind, headerBlock)
      ensures r.Fault? ==> IsFatal(r.reason)
    {
      ParserReasons(limits, kind, headerBlock);
      var parsed := ParseHeaderBlock(limits, kind, headerBlock);
      if parsed.Err? {
        return Fault(parsed.reason);
      }
      var length := ResolveContentLength(limits, parsed.value.headers);
      if length.Err? {
        return Fault(length.reason);
      }
      return Parsed(parsed.value, length.value);
    }

    /** Poisons the stream when the reason is fatal; every reason the loop reports is. */
    method Fail(reason: Reason) returns (event: Event)
      modifies `buffer, `searchOffset, `poisoned
      ensures event == ErrorEvent(reason, old(buffer))
      ensures if IsFatal(reason) then poisoned && buffer == [] && searchOffset == 0
              else poisoned == old(poisoned) && buffer == old(buffer) && searchOffset == old(searchOffset)
    {
      event := ErrorEvent(reason, buffer);
      if IsFatal(reason) {
        poisoned := true;
        buffer := [];
        searchOffset := 0;
      }
    }
  }

  /** The events of a buffer, one turn at a time. */
  lemma EventsTurn(f: Framer<Head>, b: Bytes)
    ensures var t, d := Look(f, b), Decode(f, b);
            Events(d) ==
            if t.Wait? then []
            else if t.Refuse? then [ErrorEvent(t.reason, b)]
            else [MessageEvent(Cut(b, t))] + Events(Decode(f, b[t.total..]))
    ensures var t, d := Look(f, b), Decode(f, b);
            d.standing ==
            if t.Wait? then Waiting(b)
            else if t.Refuse? then Stopped(t.reason, b)
            else Decode(f, b[t.total..]).standing
  {
    var t := Look(f, b);
    if t.Take? {
      var later := Decode(f, b[t.total..]);
      assert ([Cut(b, t)] + later.messages)[1..] == later.messages;
    }
  }

  /** One event for each message, in order, and one more for a failure. */
  lemma {:induction false} EventsExact(d: Decoded<Head>)
    ensures |Events(d)| == |d.messages| + if d.standing.Stopped? then 1 else 0
    ensures forall i | 0 <= i < |d.messages| :: Events(d)[i] == MessageEvent(d.messages[i])
    ensures d.standing.Stopped? ==> Events(d)[|d.messages|] == ErrorEvent(d.standing.reason, d.standing.raw)
    decreases |d.messages|
  {
    if d.messages != [] {
      var rest := d.(messages := d.messages[1..]);
      EventsExact(rest);
      forall i | 0 <= i < |d.messages| ensures Events(d)[i] == MessageEvent(d.messages[i]) {
        if i > 0 { assert d.messages[i] == rest.messages[i - 1] && Events(d)[i] == Events(rest)[i - 1]; }
      }
    }
  }

  /** What a loop over the events meets next: a message while there is one, then the failure. */
  lemma NextEvent(events: seq<Event>, k: nat, left: Decoded<Head>)
    requires k < |events| && events[k..] == Events(left)
    ensures if left.messages == []
            then left.standing.Stopped? && events[k] == ErrorEvent(left.standing.reason, left.standing.raw)
            else && events[k] == MessageEvent(left.messages[0])
                 && events[k + 1..] == Events(left.(messages := left.messages[1..]))
  {
    assert events[k] == events[k..][0] && events[k..][1..] == events[k + 1..];
  }

  /** The same behind the events emitted so far. */
  lemma EventsSoFar(f: Framer<Head>, b: Bytes, sofar: seq<Event>)
    ensures var t := Look(f, b);
            sofar + Events(Decode(f, b)) ==
            if t.Wait? then sofar + []
            else if t.Refuse? then sofar + [ErrorEvent(t.reason, b)]
            else (sofar + [MessageEvent(Cut(b, t))]) + Events(Decode(f, b[t.total..]))
    ensures var t := Look(f, b);
            Decode(f, b).standing ==
            if t.Wait? then Waiting(b)
            else if t.Refuse? then Stopped(t.reason, b)
            else Decode(f, b[t.total..]).standing
  {
    EventsTurn(f, b);
  }

  lemma CursorExtended(buffer: Bytes, chunk: Bytes, searchOffset: nat)
    requires CursorSound(buffer, searchOffset)
    ensures CursorSound(buffer + chunk, searchOffset)
  {
    forall i | 0 <= i < searchOffset - 3 ensures !DelimiterAt(buffer + chunk, i) {
      assert DelimiterAt(buffer + chunk, i) == DelimiterAt(buffer, i);
    }
  }

  /** Conservation across one push. */
  lemma PushHistory(f: Framer<Head>, before: Decoded<Head>, chunk: Bytes)
    requires before.standing.Waiting?
    ensures var after := Feed(f, before, chunk);
            Raws(after.messages) + Tail(after.standing) == Raws(before.messages) + Tail(before.standing) + chunk
  {
    var rest := before.standing.rest;
    var now := Decode(f, rest + chunk);
    DecodeConserves(f, rest + chunk);
    RawsAppend(before.messages, now.messages);
    Reassociate(Raws(before.messages), Raws(now.messages), Tail(now.standing));
    Reassociate(Raws(before.messages), rest, chunk);
  }
}
