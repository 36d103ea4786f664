/**
 One scenario execution: the exchange over a connection (packages/core/src/test-runner.ts, lines
 278-412), cut at its awaits and event handlers, and the verdict on it (packages/core/src/assertions.ts).
 */
module TestRunner {
  import opened Octets
  import opened Reasons
  import opened Headers
  import opened HeaderParser
  import opened Framing
  import opened Decoder
  import opened Json
  import opened Matching
  import Encoder
  import RoundTrip

  /** What is written, how many responses end the exchange, and where the client hangs up. */
  datatype Input = Input(chunks: seq<Bytes>, wanted: nat, cutAfter: Option<nat>)

  datatype Fault = TcpError | BadFrame(reason: Reason) | ClientAborted

  datatype Output = Output(
    sent: Bytes, received: seq<Bytes>, responses: seq<Framed<Head>>,
    timedOut: bool, disconnected: bool, error: Option<Fault>)

  /** The write loop: not connected, about to take the next chunk, awaiting a write, or over. */
  datatype Writer = Unconnected | Ready | Awaiting(chunk: Bytes) | Over

  datatype State = State(
    history: Decoded<Head>,
    received: seq<Bytes>,
    sent: Bytes,
    at: nat,
    writer: Writer,
    clientAborted: bool,
    frameError: Option<Reason>,
    destroyed: bool,
    lost: bool,
    output: Option<Output>)

  const START: State := State(Decoded([], Waiting([])), [], [], 0, Unconnected, false, None, false, false, None)

  /** `Lost`: the runtime destroys the socket, on a reset or the peer's end, before any event says so. */
  datatype Step =
    | Connect
    | WriterTurn
    | WriteDone
    | Data(chunk: Bytes)
    | TimerFires
    | SocketError
    | Lost
    | CloseEvent

  /** Every handler is removed and the timer cleared once the exchange has settled. */
  predicate Enabled(s: State, step: Step) {
    match step
    case Connect => s.writer == Unconnected && s.output == None && !s.destroyed
    case WriterTurn => s.writer == Ready
    case WriteDone => s.writer.Awaiting?
    case Data(_) => s.output == None && !s.destroyed
    case TimerFires => s.output == None
    case SocketError => s.output == None
    case Lost => !s.destroyed
    case CloseEvent => s.output == None
  }

  /** `finish`: the first call settles, later ones do nothing. */
  function Settle(input: Input, s: State, timedOut: bool, disconnected: bool, error: Option<Fault>): State {
    if s.output.Some? then s
    else
      var responses := s.history.messages;
      s.(destroyed := true,
         output := Some(Output(
           s.sent, s.received, responses,
           timedOut && responses == [],
           disconnected && |responses| < input.wanted,
           if error.Some? then error else if s.frameError.Some? then Some(BadFrame(s.frameError.value)) else None)))
  }

  function Abort(s: State): State { s.(clientAborted := true, destroyed := true, writer := Over) }

  /** The part of a chunk that may still be sent. */
  function Allowed(input: Input, s: State, chunk: Bytes): Bytes {
    match input.cutAfter
    case None => chunk
    case Some(cut) =>
      if |s.sent| + |chunk| <= cut then chunk else if |s.sent| < cut then chunk[..cut - |s.sent|] else []
  }

  predicate CutReached(input: Input, s: State) { input.cutAfter.Some? && |s.sent| >= input.cutAfter.value }

  /** One round of the write loop, up to the awaited write. */
  function Turned(input: Input, s: State): State {
    if s.at >= |input.chunks| || s.output.Some? || s.destroyed then s.(writer := Over)
    else if CutReached(input, s) then Abort(s)
    else s.(writer := Awaiting(Allowed(input, s, input.chunks[s.at])))
  }

  /** The awaited write is done; the client hangs up once the cut is reached. */
  function Written(input: Input, s: State): State
    requires s.writer.Awaiting?
  {
    var done := s.(sent := s.sent + s.writer.chunk, at := s.at + 1, writer := Ready);
    if CutReached(input, done) then Abort(done) else done
  }

  /** A chunk arrived: a fatal failure settles, and so do enough responses. */
  function Arrived(f: Framer<Head>, input: Input, s: State, chunk: Bytes): State {
    var got := Got(f, s, chunk);
    if s.history.standing.Waiting? && got.history.standing.Stopped? then
      var reason := got.history.standing.reason;
      Settle(input, got.(frameError := Some(reason)), false, false, Some(BadFrame(reason)))
    else if |got.history.messages| >= input.wanted then Settle(input, got, false, false, None)
    else got
  }

  /** The connection closed: octets still buffered are noted as a truncated message. */
  function Closed(input: Input, s: State): State {
    var ended := s.(history := Framing.End(s.history));
    var noted := if ended.history != s.history then ended.(frameError := Some(TruncatedMessage)) else ended;
    Settle(input, noted, false, true, if s.clientAborted then Some(ClientAborted) else None)
  }

  function Next(f: Framer<Head>, input: Input, s: State, step: Step): State
    requires Enabled(s, step)
  {
    match step
    case Connect => s.(writer := Ready)
    case WriterTurn => Turned(input, s)
    case WriteDone => Written(input, s)
    case Data(chunk) => Arrived(f, input, s, chunk)
    case TimerFires => Settle(input, s, true, false, None)
    case SocketError => Settle(input, s, false, false, Some(TcpError))
    case Lost => s.(destroyed := true, lost := true)
    case CloseEvent => Closed(input, s)
  }

  function Run(f: Framer<Head>, input: Input, s: State, steps: seq<Step>): State
    decreases |steps|
  {
    if steps == [] then s
    else Run(f, input, if Enabled(s, steps[0]) then Next(f, input, s, steps[0]) else s, steps[1..])
  }

  // ---------------------------------------------------------------- the invariant

  /** The number of octets the write loop sends when nothing interrupts it. */
  function SendLimit(input: Input): nat {
    var total := |Concat(input.chunks)|;
    if input.cutAfter.Some? && input.cutAfter.value < total then input.cutAfter.value else total
  }

  /** Where the write loop stands in the payload. */
  ghost predicate WriterSound(input: Input, s: State) {
    && |s.sent| <= SendLimit(input)
    && s.sent <= Concat(input.chunks)
    && (s.writer == Unconnected ==> s.at == 0)
    && (!s.writer.Over? ==> s.at <= |input.chunks| && s.sent == Concat(input.chunks[..s.at]))
    && (s.writer.Awaiting? ==> s.at < |input.chunks| && !CutReached(input, s)
                               && s.writer.chunk == Allowed(input, s, input.chunks[s.at]))
    && (!s.lost ==> SentAll(input, s))
    && (s.destroyed ==> s.writer.Over? || s.output.Some? || s.lost)
  }

  ghost predicate OutputSound(f: Framer<Head>, input: Input, s: State) {
    && s.history.messages == FeedAll(f, s.received).messages
    && (s.output == None ==> s.history == FeedAll(f, s.received) && s.history.standing.Waiting?)
    && match s.output
       case None => true
       case Some(out) =>
         && !(out.timedOut && out.disconnected)
         && out.sent <= Concat(input.chunks) && |out.sent| <= SendLimit(input)
         && out.received == s.received
         && out.responses == FeedAll(f, out.received).messages
         && (out.timedOut ==> out.responses == [])
         && (out.disconnected ==> |out.responses| < input.wanted)
         && s.destroyed
  }

  ghost predicate Sound(f: Framer<Head>, input: Input, s: State) {
    WriterSound(input, s) && OutputSound(f, input, s)
  }

  lemma ChunkInPayload(chunks: seq<Bytes>, at: nat)
    requires at < |chunks|
    ensures Concat(chunks[..at]) + chunks[at] == Concat(chunks[..at + 1])
    ensures Concat(chunks[..at + 1]) <= Concat(chunks)
  {
    TakeSnoc(chunks, at);
    ConcatOfPrefix(chunks, at + 1);
  }

  lemma WriteDoneKeeps(f: Framer<Head>, input: Input, s: State)
    requires WriterSound(input, s) && s.writer.Awaiting?
    ensures WriterSound(input, Next(f, input, s, WriteDone))
  {
    var chunk, w := input.chunks[s.at], s.writer.chunk;
    ChunkInPayload(input.chunks, s.at);
    assert w <= chunk;
    assert s.sent + w <= s.sent + chunk;
  }

  lemma WriterTurnKeeps(f: Framer<Head>, input: Input, s: State)
    requires WriterSound(input, s) && s.writer.Ready?
    ensures WriterSound(input, Next(f, input, s, WriterTurn))
  {
    if s.at >= |input.chunks| { assert input.chunks[..s.at] == input.chunks; }
  }

  /** The write loop's standing rests on the write loop's own variables. */
  lemma WriterFramed(input: Input, s: State, t: State)
    requires WriterSound(input, s)
    requires t == s.(history := t.history, received := t.received, frameError := t.frameError)
    ensures WriterSound(input, t)
  {}

  /** Settling a sound exchange keeps it sound. */
  lemma FinishKeeps(f: Framer<Head>, input: Input, s: State, timedOut: bool, disconnected: bool, error: Option<Fault>)
    requires WriterSound(input, s) && s.output == None
    requires s.history.messages == FeedAll(f, s.received).messages && !(timedOut && disconnected)
    ensures var after := Settle(input, s, timedOut, disconnected, error);
            Sound(f, input, after)
  {}

  /** The exchange with one more chunk recorded and decoded. */
  function Got(f: Framer<Head>, s: State, chunk: Bytes): State {
    s.(received := s.received + [chunk], history := Feed(f, s.history, chunk))
  }

  lemma GotKeeps(f: Framer<Head>, input: Input, s: State, chunk: Bytes)
    requires Sound(f, input, s) && s.output == None
    ensures var got := Got(f, s, chunk);
            && WriterSound(input, got) && got.output == None
            && got.history == FeedAll(f, got.received)
  {
    WriterFramed(input, s, Got(f, s, chunk));
    FeedStep(f, s.received, chunk);
  }

  /** A fatal failure settles. */
  lemma FailureKeeps(f: Framer<Head>, input: Input, got: State)
    requires WriterSound(input, got) && got.output == None
    requires got.history == FeedAll(f, got.received) && got.history.standing.Stopped?
    ensures var reason := got.history.standing.reason;
            Sound(f, input, Settle(input, got.(frameError := Some(reason)), false, false, Some(BadFrame(reason))))
  {
    var noted := got.(frameError := Some(got.history.standing.reason));
    WriterFramed(input, got, noted);
    FinishKeeps(f, input, noted, false, false, Some(BadFrame(got.history.standing.reason)));
  }

  /** Waiting for more leaves a sound exchange. */
  lemma WaitingKeeps(f: Framer<Head>, input: Input, got: State)
    requires WriterSound(input, got) && got.output == None
    requires got.history == FeedAll(f, got.received) && got.history.standing.Waiting?
    ensures Sound(f, input, got)
  {}

  lemma DataKeeps(f: Framer<Head>, input: Input, s: State, chunk: Bytes)
    requires Sound(f, input, s) && s.output == None && !s.destroyed
    ensures var after := Next(f, input, s, Data(chunk)); Sound(f, input, after)
  {
    var got := Got(f, s, chunk);
    GotKeeps(f, input, s, chunk);
    if got.history.standing.Stopped? {
      FailureKeeps(f, input, got);
    } else if |got.history.messages| >= input.wanted {
      FinishKeeps(f, input, got, false, false, None);
    } else {
      WaitingKeeps(f, input, got);
    }
  }

  lemma CloseKeeps(f: Framer<Head>, input: Input, s: State)
    requires Sound(f, input, s) && s.output == None
    ensures var after := Next(f, input, s, CloseEvent); Sound(f, input, after)
  {
    var ended := s.(history := Framing.End(s.history));
    var noted := if ended.history != s.history then ended.(frameError := Some(TruncatedMessage)) else ended;
    FinishKeeps(f, input, noted, false, true, if s.clientAborted then Some(ClientAborted) else None);
  }

  lemma WriterKeepsOutput(f: Framer<Head>, input: Input, s: State, step: Step)
    requires OutputSound(f, input, s) && Enabled(s, step) && step in {Connect, WriterTurn, WriteDone}
    ensures OutputSound(f, input, Next(f, input, s, step)) && Next(f, input, s, step).output == s.output
  {}

  lemma {:induction false} StepKeeps(f: Framer<Head>, input: Input, s: State, step: Step)
    requires Sound(f, input, s) && Enabled(s, step)
    ensures Sound(f, input, Next(f, input, s, step))
    ensures s.output.Some? ==> Next(f, input, s, step).output == s.output
  {
    match step
    case Connect => WriterKeepsOutput(f, input, s, step);
    case WriterTurn =>
      WriterTurnKeeps(f, input, s);
      WriterKeepsOutput(f, input, s, step);
    case WriteDone =>
      WriteDoneKeeps(f, input, s);
      WriterKeepsOutput(f, input, s, step);
    case Data(chunk) => DataKeeps(f, input, s, chunk);
    case TimerFires => FinishKeeps(f, input, s, true, false, None);
    case SocketError => FinishKeeps(f, input, s, false, false, Some(TcpError));
    case Lost =>
    case CloseEvent => CloseKeeps(f, input, s);
  }

  lemma {:induction false} RunKeeps(f: Framer<Head>, input: Input, s: State, steps: seq<Step>)
    requires Sound(f, input, s)
    ensures Sound(f, input, Run(f, input, s, steps))
    ensures s.output.Some? ==> Run(f, input, s, steps).output == s.output
    decreases |steps|
  {
    if steps != [] {
      if Enabled(s, steps[0]) { StepKeeps(f, input, s, steps[0]); }
      RunKeeps(f, input, if Enabled(s, steps[0]) then Next(f, input, s, steps[0]) else s, steps[1..]);
    }
  }

  // ---------------------------------------------------------------- over all runs

  lemma StartSound(f: Framer<Head>, input: Input)
    ensures Sound(f, input, START)
  {
    assert Concat(input.chunks[..0]) == [];
  }

  /**
   In every run: what was sent is a prefix of the payload no longer than the cut allows, and all
   that is allowed once the write loop is over, nothing has settled and the connection was not
   lost, which takes a step of its own; a result never says both timed out and disconnected; its
   responses are those of the octets received.
   */
  lemma EveryRun(f: Framer<Head>, input: Input, steps: seq<Step>)
    ensures var s := Run(f, input, START, steps);
            && s.sent <= Concat(input.chunks) && |s.sent| <= SendLimit(input)
            && (!s.lost ==> SentAll(input, s))
            && (Lost !in steps ==> !s.lost)
            && OutputSound(f, input, s)
  {
    StartSound(f, input);
    RunKeeps(f, input, START, steps);
    if Lost !in steps { LostTakesAStep(f, input, START, steps); }
  }

  lemma {:induction false} LostTakesAStep(f: Framer<Head>, input: Input, s: State, steps: seq<Step>)
    requires !s.lost && Lost !in steps
    ensures !Run(f, input, s, steps).lost
    decreases |steps|
  {
    if steps != [] {
      LostTakesAStep(f, input, if Enabled(s, steps[0]) then Next(f, input, s, steps[0]) else s, steps[1..]);
    }
  }

  /** If the write loop is over with nothing settled, it has sent all it may. */
  predicate SentAll(input: Input, s: State) {
    s.writer.Over? && s.output == None ==> |s.sent| == SendLimit(input)
  }

  ghost predicate AlwaysSendsAll(f: Framer<Head>, input: Input) {
    forall steps :: SentAll(input, Run(f, input, START, steps))
  }

  lemma NotAlways(f: Framer<Head>, input: Input, steps: seq<Step>)
    requires !SentAll(input, Run(f, input, START, steps))
    ensures !AlwaysSendsAll(f, input)
  {}

  /**
   Without that exception the write loop need not send all it may: a connection lost right after
   it opened ends the loop at once. So no condition but an empty allowance makes it hold.
   */
  lemma SendsAllIff(f: Framer<Head>, input: Input)
    ensures AlwaysSendsAll(f, input) <==> SendLimit(input) == 0
  {
    if SendLimit(input) == 0 {
      forall steps ensures SentAll(input, Run(f, input, START, steps)) { EveryRun(f, input, steps); }
    } else {
      var steps := [Connect, Lost, WriterTurn];
      var ready := START.(writer := Ready);
      var gone := ready.(destroyed := true, lost := true);
      assert steps[1..] == [Lost, WriterTurn] && steps[1..][1..] == [WriterTurn] && [WriterTurn][1..] == [];
      assert Next(f, input, START, Connect) == ready && Next(f, input, ready, Lost) == gone;
      assert Run(f, input, START, steps) == Run(f, input, gone, [WriterTurn]) == gone.(writer := Over);
      NotAlways(f, input, steps);
    }
  }

  /**
   An exchange settles exactly once: whatever happens later a result stays, and until there is one
   the timer, a socket error and the close event can each happen and give it.
   */
  lemma SettlesOnce(f: Framer<Head>, input: Input, steps: seq<Step>, later: seq<Step>)
    ensures var s := Run(f, input, START, steps);
            if s.output.Some? then Run(f, input, s, later).output == s.output
            else forall step <- [TimerFires, SocketError, CloseEvent] ::
                   Enabled(s, step) && Next(f, input, s, step).output.Some?
  {
    StartSound(f, input);
    RunKeeps(f, input, START, steps);
    if Run(f, input, START, steps).output.Some? {
      RunKeeps(f, input, Run(f, input, START, steps), later);
    }
  }

  // ---------------------------------------------------------------- the write loop comes to its end

  /** The chunk to be looked at next, and how far the loop is with it. */
  function Remaining(input: Input, s: State): int {
    2 * (|input.chunks| - s.at) + if s.writer.Ready? then 1 else 0
  }

  lemma WriterMoves(f: Framer<Head>, input: Input, s: State)
    requires Sound(f, input, s) && (s.writer.Ready? || s.writer.Awaiting?)
    ensures var step := if s.writer.Ready? then WriterTurn else WriteDone;
            && Enabled(s, step)
            && var t := Next(f, input, s, step);
            && t.output == s.output && t.lost == s.lost && t.history == s.history
            && (t.writer.Over?
                || ((t.writer.Ready? || t.writer.Awaiting?) && Remaining(input, t) < Remaining(input, s)))
  {}

  /** Left alone, a connected exchange's write loop comes to its end by its own steps. */
  lemma {:induction false} CanFinishWriting(f: Framer<Head>, input: Input, s: State) returns (more: seq<Step>)
    requires Sound(f, input, s) && s.writer != Unconnected
    ensures var t := Run(f, input, s, more);
            Sound(f, input, t) && t.writer.Over? && t.output == s.output && t.lost == s.lost
    decreases if s.writer.Over? then 0 else 1, Remaining(input, s)
  {
    if s.writer.Over? { return []; }
    var step := if s.writer.Ready? then WriterTurn else WriteDone;
    WriterMoves(f, input, s);
    StepKeeps(f, input, s, step);
    var rest := CanFinishWriting(f, input, Next(f, input, s, step));
    assert ([step] + rest)[1..] == rest;
    return [step] + rest;
  }

  /** So from every reachable state of an unsettled, undisturbed exchange all that is allowed can be sent. */
  lemma CanSendAll(f: Framer<Head>, input: Input, steps: seq<Step>) returns (more: seq<Step>)
    requires var s := Run(f, input, START, steps); s.output == None && !s.destroyed
    ensures |Run(f, input, Run(f, input, START, steps), more).sent| == SendLimit(input)
  {
    StartSound(f, input);
    RunKeeps(f, input, START, steps);
    var s := Run(f, input, START, steps);
    RunHangsUp(f, input, START, steps);
    if s.writer == Unconnected {
      StepKeeps(f, input, s, Connect);
      var rest := CanFinishWriting(f, input, Next(f, input, s, Connect));
      assert ([Connect] + rest)[1..] == rest;
      NotLost(f, input, steps);
      return [Connect] + rest;
    }
    more := CanFinishWriting(f, input, s);
    NotLost(f, input, steps);
  }

  /** A lost connection has a destroyed socket. */
  lemma NotLost(f: Framer<Head>, input: Input, steps: seq<Step>)
    ensures var s := Run(f, input, START, steps); s.lost ==> s.destroyed
  {
    LostRun(f, input, START, steps);
  }

  lemma {:induction false} LostRun(f: Framer<Head>, input: Input, s: State, steps: seq<Step>)
    requires s.lost ==> s.destroyed
    ensures var t := Run(f, input, s, steps); t.lost ==> t.destroyed
    decreases |steps|
  {
    if steps != [] {
      LostRun(f, input, if Enabled(s, steps[0]) then Next(f, input, s, steps[0]) else s, steps[1..]);
    }
  }

  // ---------------------------------------------------------------- how an exchange settles

  /** The client hangs up only at the cut, and does not go on writing there; no fault is kept unsettled. */
  ghost predicate HangsUp(input: Input, s: State) {
    && (s.clientAborted ==> s.writer.Over? && CutReached(input, s) && input.chunks != [])
    && (s.writer.Awaiting? ==> s.at < |input.chunks|)
    && (s.writer == Unconnected ==> s.at == 0)
    && (s.writer.Ready? && s.at > 0 ==> !CutReached(input, s))
    && (s.writer.Over? && s.output == None && !s.lost && !s.clientAborted ==>
          s.at >= |input.chunks| && (s.at > 0 ==> !CutReached(input, s)))
    && (s.output == None ==> s.frameError == None)
    && (s.destroyed ==> s.clientAborted || s.output.Some? || s.lost)
  }

  lemma StepHangsUp(f: Framer<Head>, input: Input, s: State, step: Step)
    requires HangsUp(input, s) && Enabled(s, step)
    ensures HangsUp(input, Next(f, input, s, step))
  {
    match step
    case WriterTurn => TurnHangsUp(input, s);
    case WriteDone => WriteHangsUp(input, s);
    case Data(chunk) => ArrivedHangsUp(f, input, s, chunk);
    case CloseEvent => ClosedHangsUp(input, s);
    case TimerFires => SettlingHangsUp(input, s, Settle(input, s, true, false, None));
    case SocketError => SettlingHangsUp(input, s, Settle(input, s, false, false, Some(TcpError)));
    case _ =>
  }

  lemma ArrivedHangsUp(f: Framer<Head>, input: Input, s: State, chunk: Bytes)
    requires HangsUp(input, s) && s.output == None
    ensures HangsUp(input, Arrived(f, input, s, chunk))
  {
    SettlingHangsUp(input, s, Arrived(f, input, s, chunk));
  }

  lemma ClosedHangsUp(input: Input, s: State)
    requires HangsUp(input, s) && s.output == None
    ensures HangsUp(input, Closed(input, s))
  {
    SettlingHangsUp(input, s, Closed(input, s));
  }

  lemma TurnHangsUp(input: Input, s: State)
    requires HangsUp(input, s) && s.writer.Ready?
    ensures HangsUp(input, Turned(input, s))
  {}

  lemma WriteHangsUp(input: Input, s: State)
    requires HangsUp(input, s) && s.writer.Awaiting?
    ensures HangsUp(input, Written(input, s))
  {}

  /** Steps that leave the write loop alone, and settle or change neither fault nor socket. */
  lemma SettlingHangsUp(input: Input, s: State, t: State)
    requires HangsUp(input, s) && s.output == None
    requires t.writer == s.writer && t.at == s.at && t.sent == s.sent
    requires t.clientAborted == s.clientAborted && t.lost == s.lost
    requires t.output.Some? || (t.frameError == s.frameError && t.destroyed == s.destroyed)
    ensures HangsUp(input, t)
  {}

  lemma {:induction false} RunHangsUp(f: Framer<Head>, input: Input, s: State, steps: seq<Step>)
    requires HangsUp(input, s)
    ensures HangsUp(input, Run(f, input, s, steps))
    decreases |steps|
  {
    if steps != [] {
      if Enabled(s, steps[0]) { StepHangsUp(f, input, s, steps[0]); }
      RunHangsUp(f, input, if Enabled(s, steps[0]) then Next(f, input, s, steps[0]) else s, steps[1..]);
    }
  }

  /** Once the write loop is over, all undisturbed, the client hung up exactly if its cut lay in the payload. */
  lemma HungUpIff(f: Framer<Head>, input: Input, steps: seq<Step>)
    requires var s := Run(f, input, START, steps); s.writer.Over? && s.output == None && !s.lost
    ensures Run(f, input, START, steps).clientAborted <==>
              input.cutAfter.Some? && input.chunks != [] && input.cutAfter.value <= |Concat(input.chunks)|
  {
    EveryRun(f, input, steps);
    RunHangsUp(f, input, START, steps);
  }

  /** Whether this step gives an unsettled exchange its result. */
  predicate SettlesNow(f: Framer<Head>, input: Input, s: State, step: Step) {
    match step
    case Data(chunk) =>
      var d := FeedAll(f, s.received + [chunk]);
      d.standing.Stopped? || |d.messages| >= input.wanted
    case TimerFires => true
    case SocketError => true
    case CloseEvent => true
    case _ => false
  }

  /** The error a settling step reports, given what the octets received decode to. */
  function ErrorOf(s: State, step: Step, d: Decoded<Head>): Option<Fault> {
    match step
    case SocketError => Some(TcpError)
    case CloseEvent =>
      if s.clientAborted then Some(ClientAborted)
      else if d.standing == Waiting([]) then None
      else Some(BadFrame(TruncatedMessage))
    case _ => if d.standing.Stopped? then Some(BadFrame(d.standing.reason)) else None
  }

  /**
   In every run an unsettled exchange settles in exactly the steps that must settle it, and then
   says timed out exactly when the timer fired with no response, disconnected exactly when the
   close came with responses missing, and names the error of that step, if there is one.
   */
  lemma HowItSettles(f: Framer<Head>, input: Input, steps: seq<Step>, step: Step)
    requires var s := Run(f, input, START, steps); s.output == None && Enabled(s, step)
    ensures var s := Run(f, input, START, steps);
            Settled(f, input, s, step, Next(f, input, s, step))
  {
    StartSound(f, input);
    RunKeeps(f, input, START, steps);
    RunHangsUp(f, input, START, steps);
    StepSettles(f, input, Run(f, input, START, steps), step);
  }

  ghost predicate Settled(f: Framer<Head>, input: Input, s: State, step: Step, after: State) {
    && (after.output.Some? <==> SettlesNow(f, input, s, step))
    && (after.output.Some? ==>
          var out, d := after.output.value, FeedAll(f, after.received);
          && out.sent == s.sent && out.received == after.received && out.responses == d.messages
          && (out.timedOut <==> step == TimerFires && d.messages == [])
          && (out.disconnected <==> step == CloseEvent && |d.messages| < input.wanted)
          && out.error == ErrorOf(s, step, d))
  }

  lemma StepSettles(f: Framer<Head>, input: Input, s: State, step: Step)
    requires Sound(f, input, s) && HangsUp(input, s) && s.output == None && Enabled(s, step)
    ensures Settled(f, input, s, step, Next(f, input, s, step))
  {
    match step
    case Data(chunk) => DataSettles(f, input, s, chunk);
    case CloseEvent => CloseSettles(f, input, s);
    case _ =>
  }

  lemma DataSettles(f: Framer<Head>, input: Input, s: State, chunk: Bytes)
    requires Sound(f, input, s) && HangsUp(input, s) && s.output == None && !s.destroyed
    ensures Settled(f, input, s, Data(chunk), Arrived(f, input, s, chunk))
  {
    FeedStep(f, s.received, chunk);
  }

  lemma CloseSettles(f: Framer<Head>, input: Input, s: State)
    requires Sound(f, input, s) && HangsUp(input, s) && s.output == None
    ensures Settled(f, input, s, CloseEvent, Closed(input, s))
  {}

  // ---------------------------------------------------------------- the exchange as an object

  /** The variables `performExchange` closes over. */
  class Exchange {
    const decoder: SltpDecoder
    const input: Input
    var received: seq<Bytes>
    var responses: seq<Framed<Head>>
    var sent: Bytes
    var at: nat
    var writer: Writer
    var clientAborted: bool
    var frameError: Option<Reason>
    var destroyed: bool
    ghost var lost: bool
    var output: Option<Output>

    ghost function View(): State
      reads this, decoder
    {
      State(decoder.history, received, sent, at, writer, clientAborted, frameError, destroyed, lost, output)
    }

    ghost predicate Valid()
      reads this, decoder
    {
      && decoder.Valid() && decoder.kind == Responses
      && responses == decoder.history.messages
      && Sound(decoder.F(), input, View())
    }

    lemma Preserves(step: Step)
      requires Valid() && Enabled(View(), step)
      ensures Sound(decoder.F(), input, Next(decoder.F(), input, View(), step))
    {
      StepKeeps(decoder.F(), input, View(), step);
    }

    constructor (limits: Limits, input: Input)
      ensures Valid() && View() == START && fresh(decoder) && this.input == input
    {
      decoder := new SltpDecoder(limits, Responses);
      this.input := input;
      received, responses, sent, at, writer := [], [], [], 0, Unconnected;
      clientAborted, frameError, destroyed, lost, output := false, None, false, false, None;
      new;
      StartSound(decoder.F(), input);
    }

    method Finish(timedOut: bool, disconnected: bool, error: Option<Fault>)
      requires responses == decoder.history.messages
      modifies `destroyed, `output
      ensures View() == Settle(input, old(View()), timedOut, disconnected, error)
    {
      if output.Some? {
        return;
      }
      destroyed := true;
      output := Some(Output(
        sent, received, responses,
        timedOut && |responses| == 0,
        disconnected && |responses| < input.wanted,
        if error.Some? then error else if frameError.Some? then Some(BadFrame(frameError.value)) else None));
    }

    method Connected()
      requires Valid() && Enabled(View(), Connect)
      modifies `writer
      ensures Valid() && View() == Next(decoder.F(), input, old(View()), Connect)
    {
      Preserves(Connect);
      ghost var next := Next(decoder.F(), input, View(), Connect);
      writer := Ready;
      assert View() == next;
    }

    method WriterTurn()
      requires Valid() && Enabled(View(), Step.WriterTurn)
      modifies `writer, `clientAborted, `destroyed
      ensures Valid() && View() == Next(decoder.F(), input, old(View()), Step.WriterTurn)
    {
      Preserves(Step.WriterTurn);
      ghost var next := Next(decoder.F(), input, View(), Step.WriterTurn);
      TakeChunk();
      assert View() == next;
    }

    /** Stops, hangs up, or takes what may be sent of the next chunk. */
    method TakeChunk()
      modifies `writer, `clientAborted, `destroyed
      ensures View() == Turned(input, old(View()))
    {
      if at >= |input.chunks| || output.Some? || destroyed {
        writer := Over;
        return;
      }
      var toWrite := input.chunks[at];
      if input.cutAfter.Some? {
        if input.cutAfter.value <= |sent| {
          clientAborted, destroyed, writer := true, true, Over;
          return;
        }
        var remaining := input.cutAfter.value - |sent|;
        if remaining < |toWrite| {
          toWrite := toWrite[..remaining];
        }
      }
      writer := Awaiting(toWrite);
    }

    method WriteDone()
      requires Valid() && Enabled(View(), Step.WriteDone)
      modifies `sent, `at, `writer, `clientAborted, `destroyed
      ensures Valid() && View() == Next(decoder.F(), input, old(View()), Step.WriteDone)
    {
      Preserves(Step.WriteDone);
      ghost var next := Next(decoder.F(), input, View(), Step.WriteDone);
      CountWrite();
      assert View() == next;
    }

    /** Counts the write and hangs up at the cut. */
    method CountWrite()
      requires writer.Awaiting?
      modifies `sent, `at, `writer, `clientAborted, `destroyed
      ensures View() == Written(input, old(View()))
    {
      sent := sent + writer.chunk;
      at := at + 1;
      writer := Ready;
      if input.cutAfter.Some? && |sent| >= input.cutAfter.value {
        clientAborted, destroyed, writer := true, true, Over;
      }
    }

    method Data(chunk: Bytes)
      requires Valid() && Enabled(View(), Step.Data(chunk))
      modifies this, decoder
      ensures Valid() && View() == Next(decoder.F(), input, old(View()), Step.Data(chunk))
    {
      ghost var next := Next(decoder.F(), input, View(), Step.Data(chunk));
      Preserves(Step.Data(chunk));
      Take(chunk);
      assert View() == next;
    }

    method Take(chunk: Bytes)
      requires decoder.Valid() && responses == decoder.history.messages && decoder.history.standing.Waiting?
      modifies `received, `responses, `frameError, `destroyed, `output, decoder
      ensures decoder.Valid() && responses == decoder.history.messages
      ensures View() == Arrived(decoder.F(), input, old(View()), chunk)
    {
      var fault := Absorb(chunk);
      if fault.Some? {
        frameError := fault;
        Finish(false, false, Some(BadFrame(fault.value)));
      } else if |responses| >= input.wanted {
        Finish(false, false, None);
      }
    }

    /** Records the chunk, decodes it and keeps its responses. */
    method Absorb(chunk: Bytes) returns (fault: Option<Reason>)
      requires decoder.Valid() && responses == decoder.history.messages && decoder.history.standing.Waiting?
      modifies `received, `responses, decoder
      ensures decoder.Valid() && responses == decoder.history.messages
      ensures View() == old(View()).(received := old(received) + [chunk],
                                     history := Feed(decoder.F(), old(decoder.history), chunk))
      ensures fault == if decoder.history.standing.Stopped? then Some(decoder.history.standing.reason) else None
    {
      received := received + [chunk];
      ghost var now := Decode(decoder.F(), decoder.history.standing.rest + chunk);
      var events := decoder.Push(chunk);
      fault := Collect(events, now);
    }

    /** The loop over the events of one chunk: responses are kept, a failure stops it. */
    method Collect(events: seq<Event>, ghost now: Decoded<Head>) returns (fault: Option<Reason>)
      requires events == Events(now)
      modifies `responses
      ensures responses == old(responses) + now.messages
      ensures fault == if now.standing.Stopped? then Some(now.standing.reason) else None
    {
      ghost var left := now;
      for k := 0 to |events|
        invariant events[k..] == Events(left) && left.standing == now.standing
        invariant responses + left.messages == old(responses) + now.messages
      {
        NextEvent(events, k, left);
        if events[k].ErrorEvent? {
          return Some(events[k].reason);
        }
        assert responses + left.messages == (responses + [left.messages[0]]) + left.messages[1..];
        responses := responses + [events[k].message];
        left := left.(messages := left.messages[1..]);
      }
      return None;
    }

    method TimerFires()
      requires Valid() && Enabled(View(), Step.TimerFires)
      modifies `destroyed, `output
      ensures Valid() && View() == Next(decoder.F(), input, old(View()), Step.TimerFires)
    {
      Preserves(Step.TimerFires);
      ghost var next := Next(decoder.F(), input, View(), Step.TimerFires);
      Finish(true, false, None);
      assert View() == next;
    }

    method SocketError()
      requires Valid() && Enabled(View(), Step.SocketError)
      modifies `destroyed, `output
      ensures Valid() && View() == Next(decoder.F(), input, old(View()), Step.SocketError)
    {
      Preserves(Step.SocketError);
      ghost var next := Next(decoder.F(), input, View(), Step.SocketError);
      Finish(false, false, Some(TcpError));
      assert View() == next;
    }

    method CloseEvent()
      requires Valid() && Enabled(View(), Step.CloseEvent)
      modifies this, decoder
      ensures Valid() && View() == Next(decoder.F(), input, old(View()), Step.CloseEvent)
    {
      Preserves(Step.CloseEvent);
      ghost var next := Next(decoder.F(), input, View(), Step.CloseEvent);
      FinishClosed();
      assert View() == next;
    }

    method FinishClosed()
      requires decoder.Valid() && responses == decoder.history.messages
      modifies `frameError, `destroyed, `output, decoder
      ensures decoder.Valid() && responses == decoder.history.messages
      ensures View() == Closed(input, old(View()))
    {
      var pending := decoder.End();
      if |pending| > 0 {
        frameError := Some(TruncatedMessage);
      }
      Finish(false, true, if clientAborted then Some(ClientAborted) else None);
    }
  }

  // ---------------------------------------------------------------- the verdict

  /** What a scenario declares; no declaration is `None` or the empty list. */
  datatype Expectation = Expectation(
    timeout: bool, disconnect: bool, statusCode: Option<nat>, statusPhrase: Option<Bytes>,
    headers: seq<Field>, body: Option<Bytes>, bodyContains: Option<Bytes>, jsonSubset: Option<Value>)

  datatype Observed = Observed(response: Option<Framed<Head>>, timedOut: bool, disconnected: bool, error: Option<Fault>)

  datatype Assertion = Assertion(field: string, passed: bool)

  datatype Outcome = Passed | Failed | TimedOut | Errored

  datatype Verdict = Verdict(outcome: Outcome, passed: bool, assertions: seq<Assertion>)

  /** What a header assertion compares: the field's value, or a placeholder when there is no such field. */
  function Shown(headers: seq<Field>, name: Bytes): Bytes {
    match GetHeader(headers, name)
    case Some(value) => value
    case None => ABSENT
  }

  const ABSENT: Bytes := "(absent)"

  /** The response satisfies every declared content expectation. */
  ghost predicate ContentMet(lib: Library, e: Expectation, r: Framed<Head>) {
    && (e.statusCode.Some? ==> r.head.start.StatusLine? && r.head.start.code == e.statusCode.value)
    && (e.statusPhrase.Some? ==> r.head.start.StatusLine? && r.head.start.phrase == e.statusPhrase.value)
    && (forall h <- e.headers :: Shown(r.head.headers, h.name) == h.value)
    && (e.body.Some? ==> r.body == e.body.value)
    && (e.bodyContains.Some? ==> Includes(r.body, e.bodyContains.value))
    && (e.jsonSubset.Some? ==> lib.parseJson(r.body).Some? && IsSubset(e.jsonSubset.value, lib.parseJson(r.body).value))
  }

  /** What it takes to pass. */
  ghost predicate Met(lib: Library, e: Expectation, o: Observed) {
    if e.timeout then o.timedOut
    else if e.disconnect then o.disconnected
    else !o.timedOut && !o.disconnected && o.response.Some? && ContentMet(lib, e, o.response.value)
  }

  predicate AllPassed(assertions: seq<Assertion>) { forall i | 0 <= i < |assertions| :: assertions[i].passed }

  lemma OnePassed(a: Assertion)
    ensures AllPassed([a]) <==> a.passed
  {
    assert [a][0] == a;
  }

  lemma BothPassed(a: seq<Assertion>, b: seq<Assertion>)
    ensures AllPassed(a + b) <==> AllPassed(a) && AllPassed(b)
  {
    assert forall i | 0 <= i < |a| :: (a + b)[i] == a[i];
    assert forall i | 0 <= i < |b| :: (a + b)[|a| + i] == b[i];
  }

  /** A verdict resting on one assertion about arrival. */
  method Arrival(field: string, passed: bool, outcome: Outcome) returns (v: Verdict)
    requires passed == (outcome == Passed)
    ensures v == Verdict(outcome, passed, [Assertion(field, passed)])
    ensures v.passed <==> AllPassed(v.assertions)
  {
    OnePassed(Assertion(field, passed));
    return Verdict(outcome, passed, [Assertion(field, passed)]);
  }

  /** `evaluateExchange`: arrival first, then content, one assertion for each declared aspect. */
  method EvaluateExchange(lib: Library, e: Expectation, o: Observed) returns (v: Verdict)
    ensures v.passed == (v.outcome == Passed)
    ensures v.passed <==> AllPassed(v.assertions)
    ensures v.passed <==> Met(lib, e, o)
    ensures v.outcome == if Met(lib, e, o) then Passed
                         else if e.timeout || e.disconnect then Outcome.Failed
                         else if o.timedOut then TimedOut
                         else if !o.disconnected && o.response == None then Errored
                         else Outcome.Failed
  {
    if e.timeout {
      v := Arrival("timeout", o.timedOut, if o.timedOut then Passed else Outcome.Failed);
      return;
    }
    if e.disconnect {
      v := Arrival("disconnect", o.disconnected, if o.disconnected then Passed else Outcome.Failed);
      return;
    }
    if o.timedOut || o.disconnected || o.response == None {
      v := Arrival("response", false,
                   if o.timedOut then TimedOut else if o.disconnected then Outcome.Failed else Errored);
      return;
    }
    var assertions := AssertContent(lib, e, o.response.value);
    var passed := AllPassed(assertions);
    return Verdict(if passed then Passed else Outcome.Failed, passed, assertions);
  }

  /** One assertion if the aspect is declared, none if it is not. */
  function Declared(field: string, declared: bool, met: bool): (a: seq<Assertion>)
    ensures AllPassed(a) <==> (declared ==> met)
  {
    if declared then
      OnePassed(Assertion(field, met));
      [Assertion(field, met)]
    else []
  }

  /** The content assertions, pushed one after the other. */
  method AssertContent(lib: Library, e: Expectation, r: Framed<Head>) returns (assertions: seq<Assertion>)
    ensures AllPassed(assertions) <==> ContentMet(lib, e, r)
  {
    var start := r.head.start;
    assertions := Declared("statusCode", e.statusCode.Some?,
                           e.statusCode.Some? && start.StatusLine? && start.code == e.statusCode.value);
    assertions := Push(assertions, "statusPhrase", e.statusPhrase.Some?,
                       e.statusPhrase.Some? && start.StatusLine? && start.phrase == e.statusPhrase.value);
    var about := AssertHeaders(e.headers, r.head.headers);
    BothPassed(assertions, about);
    assertions := assertions + about;
    assertions := Push(assertions, "body", e.body.Some?, e.body == Some(r.body));
    assertions := Push(assertions, "bodyContains", e.bodyContains.Some?,
                       e.bodyContains.Some? && Includes(r.body, e.bodyContains.value));
    var parsed := lib.parseJson(r.body);
    assertions := Push(assertions, "jsonSubset", e.jsonSubset.Some?,
                       e.jsonSubset.Some? && parsed.Some? && IsSubset(e.jsonSubset.value, parsed.value));
  }

  method Push(before: seq<Assertion>, field: string, declared: bool, met: bool) returns (after: seq<Assertion>)
    ensures AllPassed(after) <==> AllPassed(before) && (declared ==> met)
  {
    BothPassed(before, Declared(field, declared, met));
    return before + Declared(field, declared, met);
  }

  method AssertHeaders(wanted: seq<Field>, headers: seq<Field>) returns (assertions: seq<Assertion>)
    ensures AllPassed(assertions) <==> forall h <- wanted :: Shown(headers, h.name) == h.value
  {
    assertions := [];
    for i := 0 to |wanted|
      invariant |assertions| == i
      invariant forall k | 0 <= k < i :: assertions[k].passed == (Shown(headers, wanted[k].name) == wanted[k].value)
    {
      var actual := Shown(headers, wanted[i].name);
      assertions := assertions + [Assertion("headers." + wanted[i].name, actual == wanted[i].value)];
    }
  }

  /**
   A header assertion passes on exactly the responses that carry the field with the expected value,
   unless the expected value is the placeholder: then a response without the field passes as well.
   */
  lemma HeaderAssertionExactIff(wanted: Field)
    ensures wanted.value != ABSENT <==>
              forall headers :: Shown(headers, wanted.name) == wanted.value
                                <==> GetHeader(headers, wanted.name) == Some(wanted.value)
  {
    assert Shown([], wanted.name) == ABSENT && GetHeader([], wanted.name) == None;
  }

  /** What the evaluation sees of an exchange's result. */
  function ObservedOf(out: Output): Observed {
    Observed(if out.responses != [] then Some(out.responses[0]) else None, out.timedOut, out.disconnected, out.error)
  }

  /** A settled run whose verdict is a pass. */
  ghost predicate Passes(lib: Library, f: Framer<Head>, input: Input, steps: seq<Step>, e: Expectation) {
    var s := Run(f, input, START, steps);
    s.output.Some? && Met(lib, e, ObservedOf(s.output.value))
  }

  /**
   A pass that expects neither a timeout nor a disconnect rests on a complete response decoded
   from the octets received, and on every declared expectation about it.
   */
  lemma PassMeansResponse(lib: Library, f: Framer<Head>, input: Input, steps: seq<Step>, e: Expectation)
    requires Passes(lib, f, input, steps, e)
    requires !e.timeout && !e.disconnect
    ensures var out := Run(f, input, START, steps).output.value;
            var responses := FeedAll(f, out.received).messages;
            && responses != [] && ContentMet(lib, e, responses[0])
            && var r := responses[0];
            && (e.statusCode.Some? || e.statusPhrase.Some? ==> r.head.start.StatusLine?)
            && (e.statusCode.Some? ==> r.head.start.code == e.statusCode.value)
            && (e.statusPhrase.Some? ==> r.head.start.phrase == e.statusPhrase.value)
            && (e.body.Some? ==> r.body == e.body.value)
            && (e.bodyContains.Some? ==> exists i, j | 0 <= i <= j <= |r.body| :: r.body[i..j] == e.bodyContains.value)
            && (e.jsonSubset.Some? ==>
                  && lib.parseJson(r.body).Some?
                  && IsSubset(e.jsonSubset.value, lib.parseJson(r.body).value))
            && forall h <- e.headers ::
                 var found := GetHeader(r.head.headers, h.name);
                 found == Some(h.value) || (found == None && h.value == ABSENT)
  {
    EveryRun(f, input, steps);
    if e.bodyContains.Some? {
      IncludesIff(Run(f, input, START, steps).output.value.responses[0].body, e.bodyContains.value);
    }
  }

  function ResponseCount(f: Framer<Head>, input: Input, steps: seq<Step>): nat
    requires Run(f, input, START, steps).output.Some?
  {
    |Run(f, input, START, steps).output.value.responses|
  }

  /** A result with some but fewer responses than wanted that counts as neither timed out nor disconnected. */
  predicate ShortUnnoticed(input: Input, out: Output) {
    0 < |out.responses| < input.wanted && !out.timedOut && !out.disconnected
  }

  /**
   A run's result hides missing responses exactly when some but not all wanted ones were decoded
   and anything but the close event settled it: the timer, a socket error or a fatal failure.
   */
  lemma ShortUnnoticedIff(f: Framer<Head>, input: Input, steps: seq<Step>, step: Step)
    requires var s := Run(f, input, START, steps);
             s.output == None && Enabled(s, step) && Next(f, input, s, step).output.Some?
    ensures var after := Next(f, input, Run(f, input, START, steps), step);
            ShortUnnoticed(input, after.output.value) <==>
              0 < |FeedAll(f, after.received).messages| < input.wanted && step != CloseEvent
  {
    StartSound(f, input);
    RunKeeps(f, input, START, steps);
    ShortStep(f, input, Run(f, input, START, steps), step);
  }

  lemma ShortStep(f: Framer<Head>, input: Input, s: State, step: Step)
    requires Sound(f, input, s) && s.output == None && Enabled(s, step)
    requires Next(f, input, s, step).output.Some?
    ensures var after := Next(f, input, s, step);
            ShortUnnoticed(input, after.output.value) <==>
              0 < |FeedAll(f, after.received).messages| < input.wanted && step != CloseEvent
  {
    StepKeeps(f, input, s, step);
  }

  /**
   Expecting a timeout passes exactly when the timer settled the exchange with no response, and
   expecting a disconnect exactly when the close did with responses missing.
   */
  lemma ArrivalPassIff(lib: Library, f: Framer<Head>, input: Input, steps: seq<Step>, step: Step, e: Expectation)
    requires var s := Run(f, input, START, steps);
             s.output == None && Enabled(s, step) && Next(f, input, s, step).output.Some?
    ensures var after := Next(f, input, Run(f, input, START, steps), step);
            var o, d := ObservedOf(after.output.value), FeedAll(f, after.received);
            && (e.timeout ==> (Met(lib, e, o) <==> step == TimerFires && d.messages == []))
            && (!e.timeout && e.disconnect ==>
                  (Met(lib, e, o) <==> step == CloseEvent && |d.messages| < input.wanted))
  {
    HowItSettles(f, input, steps, step);
  }

  /** The expectation that declares everything a response says. */
  function Describing(r: Framed<Head>, headers: seq<Field>): Expectation
    requires r.head.start.StatusLine?
  {
    Expectation(false, false, Some(r.head.start.code), Some(r.head.start.phrase), headers,
                Some(r.body), Some(r.body), None)
  }

  /** A response passes the expectation that describes it, its first field of each name included. */
  lemma DescriptionPasses(lib: Library, r: Framed<Head>, headers: seq<Field>, error: Option<Fault>)
    requires r.head.start.StatusLine?
    requires forall h <- headers :: GetHeader(r.head.headers, h.name) == Some(h.value)
    ensures Met(lib, Describing(r, headers), Observed(Some(r), false, false, error))
  {
    IncludesIff(r.body, r.body);
    assert r.body[0..|r.body|] == r.body;
  }

  /** No declaration at all. */
  const BARE: Expectation := Expectation(false, false, None, None, [], None, None, None)

  /** One response, then the timer. */
  function OneThenTimer(b: Bytes): seq<Step> { [Connect, Data(b), TimerFires] }

  lemma OneThenTimerRun(f: Framer<Head>, input: Input, b: Bytes)
    requires Look(f, b).Take? && Look(f, b).total == |b| && input.wanted >= 2
    ensures var s := Run(f, input, START, OneThenTimer(b));
            s.output.Some? && s.output.value.responses == [Cut(b, Look(f, b))] && !s.output.value.timedOut
            && !s.output.value.disconnected
  {
    var steps, m := OneThenTimer(b), Cut(b, Look(f, b));
    var ready := START.(writer := Ready);
    var got := Got(f, ready, b);
    assert b[|b|..] == [] && [] + b == b;
    assert Decode(f, b) == Decoded([m], Waiting([]));
    assert [] + [m] == [m];
    assert got.history == Decoded([m], Waiting([]));
    assert steps[1..] == [Data(b), TimerFires] && steps[1..][1..] == [TimerFires] && [TimerFires][1..] == [];
    assert Next(f, input, START, Connect) == ready;
    assert Next(f, input, ready, Data(b)) == got;
    assert Run(f, input, START, steps) == Run(f, input, ready, steps[1..]) == Run(f, input, got, [TimerFires]);
  }

  /**
   That a pass saw as many responses as the exchange wanted holds exactly of exchanges that want at
   most one. An exchange of two coalesced requests wants two, and may pass on the first response.
   */
  lemma PassSawAllIff(lib: Library, f: Framer<Head>, input: Input, b: Bytes)
    requires Look(f, b).Take?
    ensures (forall steps: seq<Step>, e: Expectation | !e.timeout && !e.disconnect && Passes(lib, f, input, steps, e) ::
               ResponseCount(f, input, steps) >= input.wanted)
            <==> input.wanted <= 1
  {
    if input.wanted <= 1 {
      forall steps: seq<Step>, e: Expectation | !e.timeout && !e.disconnect && Passes(lib, f, input, steps, e)
        ensures ResponseCount(f, input, steps) >= input.wanted
      {}
    } else {
      var m := b[..Look(f, b).total];
      LookInPrefix(f, b, |m|);
      OneThenTimerRun(f, input, m);
      assert Passes(lib, f, input, OneThenTimer(m), BARE);
      assert ResponseCount(f, input, OneThenTimer(m)) < input.wanted;
    }
  }

  /** How many responses a scenario waits for. */
  function Wanted(coalesced: bool, second: bool): nat { if coalesced && second then 2 else 1 }

  const DEFAULT_LIMITS: Limits := Limits(1_048_576, 16_384, 1_024, 64)

  lemma DefaultLimitsAdmit()
    ensures exists b :: Look(SltpFramer(DEFAULT_LIMITS, Responses), b).Take?
  {
    var ok := Encoder.Outgoing(StatusLine(200, "OK"), [], [], false);
    assert ValidPhrase("OK");
    assert Encoder.AddedFields(ok) == [] && Encoder.CallerFields([]) == Ok([]);
    assert Encoder.CheckStart(ok.start) == None;
    assert Encoder.Fields(ok) == Ok([] + []);
    assert |Encoder.StartLineText(ok.start)| <= 100 by { RoundTrip.ThreeDigits(200); }
    RoundTrip.LookWritten(DEFAULT_LIMITS, Responses, ok);
  }

  /** On the decoder the runner sets up: a pass saw every response exactly when nothing was coalesced. */
  lemma ScenarioPassIff(lib: Library, input: Input, coalesced: bool, second: bool)
    requires input.wanted == Wanted(coalesced, second)
    ensures var f := SltpFramer(DEFAULT_LIMITS, Responses);
            (forall steps: seq<Step>, e: Expectation | !e.timeout && !e.disconnect && Passes(lib, f, input, steps, e) ::
               ResponseCount(f, input, steps) >= input.wanted)
            <==> !(coalesced && second)
  {
    var f := SltpFramer(DEFAULT_LIMITS, Responses);
    DefaultLimitsAdmit();
    var b :| Look(f, b).Take?;
    PassSawAllIff(lib, f, input, b);
  }
}
