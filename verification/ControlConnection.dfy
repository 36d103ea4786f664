/**
 One control connection of the server (apps/server/src/server.ts, lines 310-456 and 461-511).
 Each asynchronous function is cut where it awaits; the pieces may interleave in any order.
 */
module ControlConnection {
  import opened Octets
  import opened Reasons
  import opened Headers
  import opened HeaderParser
  import opened Framing
  import opened Decoder
  import RateLimit

  /**
   A dispatched request: its handler runs, then its response is on the socket and the write is
   awaited, then `writeResponse` has returned, then the `finally` of `dispatch` has run.
   */
  datatype Phase = Handling | Writing | Returning | Finished

  /**
   `admitted`: the rate limit let the request through; `valid`: so did validation; `handled`: its
   handler ran and returned or threw.
   */
  datatype Job = Job(requestId: Option<Bytes>, phase: Phase, admitted: bool, valid: bool, handled: bool)

  /** A response put on the socket: for which job, `None` for a framing failure, and its Request-ID. */
  datatype Response = Response(job: Option<nat>, requestId: Option<Bytes>)

  /** The response to a framing failure. */
  datatype FaultReply = NoFault | FaultWriting | FaultWritten

  datatype State = State(
    history: Decoded<Head>,
    jobs: seq<Job>,
    written: seq<Response>,
    faultReply: FaultReply,
    inFlight: int,
    closeWhenIdle: bool,
    ends: nat,
    bucket: RateLimit.Bucket,
    arrivals: seq<int>,
    peerEnded: bool,
    destroyed: bool)

  /** Rate limiting may be switched off; the bucket is then left alone. */
  type Limited = Option<RateLimit.Limit>

  /** The bucket of a new connection is full. */
  function FullBucket(limit: Limited, now: int): RateLimit.Bucket {
    RateLimit.Bucket(if limit.Some? then limit.value.capacity else 0.0, now)
  }

  function Start(limit: Limited, now: int): State {
    State(Decoded([], Waiting([])), [], [], NoFault, 0, false, 0, FullBucket(limit, now), [], false, false)
  }

  /** Whether a request arriving `now` gets a token. */
  predicate Admitted(limit: Limited, bucket: RateLimit.Bucket, now: int) {
    limit.Some? ==> RateLimit.Admits(limit.value, bucket, now)
  }

  function Drawn(limit: Limited, bucket: RateLimit.Bucket, now: int): RateLimit.Bucket {
    if limit.Some? then RateLimit.After(limit.value, bucket, now) else bucket
  }

  function RequestIdOf(message: Framed<Head>): Option<Bytes> { GetHeader(message.head.headers, REQUEST_ID) }

  /**
   What the environment decides: bytes and when they come, which requests are invalid, handler
   completions, write callbacks, the peer's end of stream, resets.
   */
  datatype Step =
    | Receive(chunk: Bytes, now: int, invalid: set<nat>)
    | HandlerDone(job: nat)
    | WriteDone(job: nat)
    | Finally(job: nat)
    | FaultWriteDone
    | PeerEnd
    | Destroy

  // ---------------------------------------------------------------- one step

  /** What reaches the wire: nothing once the peer's end of stream has ended the socket. */
  function Sent(s: State, r: Response): seq<Response> { if s.peerEnded then s.written else s.written + [r] }

  /** Puts the response to job `i` on the socket, unless the socket is gone. */
  function Respond(s: State, i: nat): State
    requires i < |s.jobs|
  {
    if s.destroyed then s.(jobs := s.jobs[i := s.jobs[i].(phase := Returning)])
    else s.(jobs := s.jobs[i := s.jobs[i].(phase := Writing)],
            written := Sent(s, Response(Some(i), s.jobs[i].requestId)))
  }

  function NewJob(limit: Limited, s: State, message: Framed<Head>, now: int, invalid: set<nat>): Job {
    Job(RequestIdOf(message), Handling, Admitted(limit, s.bucket, now), |s.jobs| !in invalid, false)
  }

  /** The handler of job `i` is done. */
  function Handled(s: State, i: nat): State
    requires i < |s.jobs|
  {
    s.(jobs := s.jobs[i := s.jobs[i].(handled := true)])
  }

  /** A request is counted in and draws its token. */
  function Register(limit: Limited, s: State, message: Framed<Head>, now: int, invalid: set<nat>): State {
    s.(jobs := s.jobs + [NewJob(limit, s, message, now, invalid)],
       inFlight := s.inFlight + 1,
       bucket := Drawn(limit, s.bucket, now),
       arrivals := s.arrivals + [now])
  }

  /** The synchronous part of `dispatch`: without a token, or invalid, a request is refused at once. */
  function Dispatch(limit: Limited, s: State, message: Framed<Head>, now: int, invalid: set<nat>): State {
    var i, begun := |s.jobs|, Register(limit, s, message, now, invalid);
    if !begun.jobs[i].admitted || !begun.jobs[i].valid then Respond(begun, i) else begun
  }

  function DispatchAll(limit: Limited, s: State, messages: seq<Framed<Head>>, now: int, invalid: set<nat>): State
    decreases |messages|
  {
    if messages == [] then s
    else DispatchAll(limit, Dispatch(limit, s, messages[0], now, invalid), messages[1..], now, invalid)
  }

  /** The answer to a framing failure, with its close flag, written at once. */
  function ReportFault(s: State): State {
    s.(written := Sent(s, Response(None, None)), faultReply := FaultWriting)
  }

  function EndIfIdle(s: State): State {
    if s.closeWhenIdle && s.inFlight == 0 && !s.destroyed then s.(ends := s.ends + 1) else s
  }

  predicate Enabled(s: State, step: Step) {
    match step
    case Receive(_, _, _) => !s.destroyed && !s.peerEnded
    case HandlerDone(i) => i < |s.jobs| && s.jobs[i].phase == Handling
    case WriteDone(i) => i < |s.jobs| && s.jobs[i].phase == Writing
    case Finally(i) => i < |s.jobs| && s.jobs[i].phase == Returning
    case FaultWriteDone => s.faultReply == FaultWriting
    case PeerEnd => !s.destroyed
    case Destroy => !s.destroyed
  }

  function Next(f: Framer<Head>, limit: Limited, s: State, step: Step): State
    requires Enabled(s, step)
  {
    match step
    case Receive(chunk, now, invalid) =>
      var got := Completed(f, s.history, chunk);
      var after := DispatchAll(limit, s, got.messages, now, invalid).(history := Feed(f, s.history, chunk));
      if got.standing.Stopped? then ReportFault(after) else after
    case HandlerDone(i) => Respond(Handled(s, i), i)
    case WriteDone(i) => s.(jobs := s.jobs[i := s.jobs[i].(phase := Returning)])
    case Finally(i) =>
      EndIfIdle(s.(jobs := s.jobs[i := s.jobs[i].(phase := Finished)], inFlight := s.inFlight - 1))
    case FaultWriteDone => EndIfIdle(s.(faultReply := FaultWritten, closeWhenIdle := true))
    case PeerEnd => s.(peerEnded := true)
    case Destroy => s.(destroyed := true)
  }

  /** A run: steps that are not enabled do not happen. */
  function Run(f: Framer<Head>, limit: Limited, s: State, steps: seq<Step>): State
    decreases |steps|
  {
    if steps == [] then s
    else Run(f, limit, if Enabled(s, steps[0]) then Next(f, limit, s, steps[0]) else s, steps[1..])
  }

  // ---------------------------------------------------------------- the invariant

  /** The jobs whose `finally` has not run. */
  function Open(jobs: seq<Job>): set<nat> { set i: nat | i < |jobs| && jobs[i].phase != Finished }

  /** How many responses to job `i` are on the socket. */
  function Answers(written: seq<Response>, i: nat): nat {
    if written == [] then 0
    else Answers(written[..|written| - 1], i) + if written[|written| - 1].job == Some(i) then 1 else 0
  }

  ghost predicate JobsMatch(jobs: seq<Job>, messages: seq<Framed<Head>>) {
    |jobs| == |messages| && forall i | 0 <= i < |jobs| :: jobs[i].requestId == RequestIdOf(messages[i])
  }

  /** The connection still carries responses. */
  predicate Writable(s: State) { !s.destroyed && !s.peerEnded }

  /** Exactly one response once the handler is done, none before; a lost connection may lose it. */
  ghost predicate AnsweredOnce(s: State) {
    && (forall i: nat :: Answers(s.written, i) <= if i < |s.jobs| && s.jobs[i].phase != Handling then 1 else 0)
    && (Writable(s) ==> forall i: nat | i < |s.jobs| && s.jobs[i].phase != Handling :: Answers(s.written, i) == 1)
  }

  /** Every response carries the Request-ID of its own request. */
  ghost predicate OwnIds(s: State) {
    forall k | 0 <= k < |s.written| && s.written[k].job.Some? ::
      s.written[k].job.value < |s.jobs| && s.written[k].requestId == s.jobs[s.written[k].job.value].requestId
  }

  ghost predicate Invariant(s: State) {
    && JobsMatch(s.jobs, s.history.messages)
    && s.inFlight == |Open(s.jobs)|
    && AnsweredOnce(s)
    && OwnIds(s)
    && (s.faultReply == NoFault <==> s.history.standing.Waiting?)
    && (s.closeWhenIdle <==> s.faultReply == FaultWritten)
    // The socket is ended once, when idle after a fatal failure; and then always.
    && s.ends <= (if s.closeWhenIdle && s.inFlight == 0 then 1 else 0)
    && (!s.destroyed && s.closeWhenIdle && s.inFlight == 0 ==> s.ends == 1)
  }

  lemma AnswersSnoc(written: seq<Response>, r: Response, i: nat)
    ensures Answers(written + [r], i) == Answers(written, i) + if r.job == Some(i) then 1 else 0
  {
    assert (written + [r])[..|written|] == written;
  }

  lemma OpenUpdate(jobs: seq<Job>, i: nat, phase: Phase)
    requires i < |jobs| && jobs[i].phase != Finished
    ensures var after := Open(jobs[i := jobs[i].(phase := phase)]);
            after == (if phase == Finished then Open(jobs) - {i} else Open(jobs)) && i in Open(jobs)
  {}

  lemma RespondKeeps(s: State, i: nat)
    requires i < |s.jobs| && s.jobs[i].phase == Handling
    requires AnsweredOnce(s) && OwnIds(s)
    ensures var after := Respond(s, i);
            && AnsweredOnce(after) && OwnIds(after)
            && Open(after.jobs) == Open(s.jobs)
            && |after.jobs| == |s.jobs|
            && forall j | 0 <= j < |s.jobs| :: after.jobs[j].requestId == s.jobs[j].requestId
  {
    OpenUpdate(s.jobs, i, if s.destroyed then Returning else Writing);
    RespondAnswers(s, i);
    RespondOwnIds(s, i);
  }

  lemma RespondAnswers(s: State, i: nat)
    requires i < |s.jobs| && s.jobs[i].phase == Handling && AnsweredOnce(s)
    ensures AnsweredOnce(Respond(s, i))
  {
    if Writable(s) {
      forall j: nat ensures Answers(Respond(s, i).written, j) == Answers(s.written, j) + if j == i then 1 else 0 {
        AnswersSnoc(s.written, Response(Some(i), s.jobs[i].requestId), j);
      }
    }
  }

  lemma RespondOwnIds(s: State, i: nat)
    requires i < |s.jobs| && OwnIds(s)
    ensures OwnIds(Respond(s, i))
  {}

  /** The part of the state that dispatching moves. */
  ghost predicate OnlyDispatched(s: State, after: State) {
    after == s.(jobs := after.jobs, written := after.written, inFlight := after.inFlight,
                bucket := after.bucket, arrivals := after.arrivals)
  }

  lemma RegisterKeeps(limit: Limited, s: State, message: Framed<Head>, now: int, invalid: set<nat>)
    requires AnsweredOnce(s) && OwnIds(s) && s.inFlight == |Open(s.jobs)|
    ensures var after := Register(limit, s, message, now, invalid);
            AnsweredOnce(after) && OwnIds(after) && after.inFlight == |Open(after.jobs)|
  {
    assert Open(Register(limit, s, message, now, invalid).jobs) == Open(s.jobs) + {|s.jobs|};
  }

  lemma DispatchKeeps(limit: Limited, s: State, message: Framed<Head>, now: int, invalid: set<nat>)
    requires AnsweredOnce(s) && OwnIds(s) && s.inFlight == |Open(s.jobs)|
    ensures var after := Dispatch(limit, s, message, now, invalid);
            AnsweredOnce(after) && OwnIds(after) && after.inFlight == |Open(after.jobs)|
  {
    var i, begun := |s.jobs|, Register(limit, s, message, now, invalid);
    RegisterKeeps(limit, s, message, now, invalid);
    if !begun.jobs[i].admitted || !begun.jobs[i].valid { RespondKeeps(begun, i); }
  }

  lemma DispatchAdds(limit: Limited, s: State, message: Framed<Head>, now: int, invalid: set<nat>)
    ensures var after := Dispatch(limit, s, message, now, invalid);
            && |after.jobs| == |s.jobs| + 1
            && after.jobs[|s.jobs|].requestId == RequestIdOf(message)
            && (forall j | 0 <= j < |s.jobs| :: after.jobs[j] == s.jobs[j])
            && OnlyDispatched(s, after)
  {}

  lemma OneMoreJob(jobs: seq<Job>, after: seq<Job>, done: seq<Framed<Head>>, message: Framed<Head>)
    requires JobsMatch(jobs, done) && |after| == |jobs| + 1
    requires forall j | 0 <= j < |jobs| :: after[j] == jobs[j]
    requires after[|jobs|].requestId == RequestIdOf(message)
    ensures JobsMatch(after, done + [message])
  {}

  lemma {:induction false} DispatchAllKeeps(
    limit: Limited, s: State, messages: seq<Framed<Head>>, now: int, invalid: set<nat>)
    requires AnsweredOnce(s) && OwnIds(s) && s.inFlight == |Open(s.jobs)|
    ensures var after := DispatchAll(limit, s, messages, now, invalid);
            AnsweredOnce(after) && OwnIds(after) && after.inFlight == |Open(after.jobs)|
    decreases |messages|
  {
    if messages != [] {
      DispatchKeeps(limit, s, messages[0], now, invalid);
      DispatchAllKeeps(limit, Dispatch(limit, s, messages[0], now, invalid), messages[1..], now, invalid);
    }
  }

  /** Dispatching adds one job for each message, in order, and touches nothing else. */
  lemma {:induction false} DispatchAllMatch(
    limit: Limited, s: State, messages: seq<Framed<Head>>, now: int, invalid: set<nat>, done: seq<Framed<Head>>)
    requires JobsMatch(s.jobs, done)
    ensures var after := DispatchAll(limit, s, messages, now, invalid);
            JobsMatch(after.jobs, done + messages) && OnlyDispatched(s, after)
    decreases |messages|
  {
    if messages == [] {
      assert done + messages == done;
    } else {
      var next := Dispatch(limit, s, messages[0], now, invalid);
      DispatchAdds(limit, s, messages[0], now, invalid);
      OneMoreJob(s.jobs, next.jobs, done, messages[0]);
      DispatchAllMatch(limit, next, messages[1..], now, invalid, done + [messages[0]]);
      assert done + [messages[0]] + messages[1..] == done + messages;
    }
  }

  lemma ReportFaultKeeps(s: State)
    requires AnsweredOnce(s) && OwnIds(s)
    ensures AnsweredOnce(ReportFault(s)) && OwnIds(ReportFault(s))
  {
    forall j: nat ensures Answers(ReportFault(s).written, j) == Answers(s.written, j) {
      AnswersSnoc(s.written, Response(None, None), j);
    }
  }

  lemma ReceiveKeeps(f: Framer<Head>, limit: Limited, s: State, step: Step)
    requires step.Receive? && Invariant(s) && Enabled(s, step)
    ensures Invariant(Next(f, limit, s, step))
  {
    var got := Completed(f, s.history, step.chunk);
    DispatchAllKeeps(limit, s, got.messages, step.now, step.invalid);
    DispatchAllMatch(limit, s, got.messages, step.now, step.invalid, s.history.messages);
    var after := DispatchAll(limit, s, got.messages, step.now, step.invalid)
                 .(history := Feed(f, s.history, step.chunk));
    assert AnsweredOnce(after) && OwnIds(after);
    if s.history.standing.Stopped? { assert s.history.messages + [] == s.history.messages; }
    if got.standing.Stopped? { ReportFaultKeeps(after); }
  }

  lemma HandlerDoneKeeps(s: State, i: nat)
    requires Invariant(s) && i < |s.jobs| && s.jobs[i].phase == Handling
    ensures Invariant(Respond(Handled(s, i), i))
  {
    HandledKeeps(s, i);
    RespondKeeps(Handled(s, i), i);
    RespondRest(Handled(s, i), i);
    OnlyAnswers(s, Respond(Handled(s, i), i));
  }

  lemma HandledKeeps(s: State, i: nat)
    requires i < |s.jobs| && s.jobs[i].phase == Handling && AnsweredOnce(s) && OwnIds(s)
    ensures AnsweredOnce(Handled(s, i)) && OwnIds(Handled(s, i)) && Open(Handled(s, i).jobs) == Open(s.jobs)
  {}

  lemma RespondRest(s: State, i: nat)
    requires i < |s.jobs|
    ensures var after := Respond(s, i); after == s.(jobs := after.jobs, written := after.written)
  {}

  /** A step that only moves requests along and answers them keeps the rest of the invariant. */
  lemma OnlyAnswers(s: State, after: State)
    requires Invariant(s) && after == s.(jobs := after.jobs, written := after.written)
    requires AnsweredOnce(after) && OwnIds(after) && Open(after.jobs) == Open(s.jobs)
    requires |after.jobs| == |s.jobs|
    requires forall j | 0 <= j < |s.jobs| :: after.jobs[j].requestId == s.jobs[j].requestId
    ensures Invariant(after)
  {}

  /** Moving a request on, not back to its handler, keeps what was answered. */
  lemma MovedAnswers(s: State, i: nat, phase: Phase)
    requires AnsweredOnce(s) && OwnIds(s) && i < |s.jobs|
    requires s.jobs[i].phase != Handling && phase != Handling
    ensures var after := s.(jobs := s.jobs[i := s.jobs[i].(phase := phase)]);
            AnsweredOnce(after) && OwnIds(after)
  {}

  lemma WriteDoneKeeps(s: State, i: nat)
    requires Invariant(s) && i < |s.jobs| && s.jobs[i].phase == Writing
    ensures Invariant(s.(jobs := s.jobs[i := s.jobs[i].(phase := Returning)]))
  {
    OpenUpdate(s.jobs, i, Returning);
    MovedAnswers(s, i, Returning);
    OnlyAnswers(s, s.(jobs := s.jobs[i := s.jobs[i].(phase := Returning)]));
  }

  /** Steps that touch no request. */
  lemma QuietKeeps(f: Framer<Head>, limit: Limited, s: State, step: Step)
    requires Invariant(s) && Enabled(s, step)
    requires step.FaultWriteDone? || step.PeerEnd? || step.Destroy?
    ensures Invariant(Next(f, limit, s, step))
  {}

  lemma FinallyKeeps(f: Framer<Head>, limit: Limited, s: State, i: nat)
    requires Invariant(s) && Enabled(s, Finally(i))
    ensures Invariant(Next(f, limit, s, Finally(i)))
  {
    var jobs := s.jobs[i := s.jobs[i].(phase := Finished)];
    OpenUpdate(s.jobs, i, Finished);
    MovedAnswers(s, i, Finished);
    assert s.inFlight - 1 == |Open(jobs)|;
    LeftKeeps(s, s.(jobs := jobs, inFlight := s.inFlight - 1));
  }

  /** The last one out ends a connection marked for closing; it was not ended before. */
  lemma LeftKeeps(s: State, left: State)
    requires Invariant(s) && s.inFlight > 0
    requires left == s.(jobs := left.jobs, inFlight := s.inFlight - 1)
    requires AnsweredOnce(left) && OwnIds(left) && left.inFlight == |Open(left.jobs)|
    requires |left.jobs| == |s.jobs|
    requires forall j | 0 <= j < |s.jobs| :: left.jobs[j].requestId == s.jobs[j].requestId
    ensures Invariant(EndIfIdle(left))
  {}

  lemma StepKeeps(f: Framer<Head>, limit: Limited, s: State, step: Step)
    requires Invariant(s) && Enabled(s, step)
    ensures Invariant(Next(f, limit, s, step))
  {
    match step
    case Receive(_, _, _) => ReceiveKeeps(f, limit, s, step);
    case HandlerDone(i) => HandlerDoneKeeps(s, i);
    case WriteDone(i) => WriteDoneKeeps(s, i);
    case Finally(i) => FinallyKeeps(f, limit, s, i);
    case _ => QuietKeeps(f, limit, s, step);
  }

  lemma {:induction false} RunKeeps(f: Framer<Head>, limit: Limited, s: State, steps: seq<Step>)
    requires Invariant(s)
    ensures Invariant(Run(f, limit, s, steps))
    decreases |steps|
  {
    if steps != [] {
      var next := if Enabled(s, steps[0]) then Next(f, limit, s, steps[0]) else s;
      if Enabled(s, steps[0]) { StepKeeps(f, limit, s, steps[0]); }
      RunKeeps(f, limit, next, steps[1..]);
    }
  }

  // ---------------------------------------------------------------- over all runs

  lemma StartInvariant(limit: Limited, now: int)
    ensures Invariant(Start(limit, now))
  {
    assert Open([]) == {};
  }

  /**
   Under any interleaving: each decoded request gets at most one response, exactly one once its
   handler is done and the connection still carries responses, always with its own Request-ID; the
   socket is ended at most once, only after a fatal decode failure and with no request in flight;
   and once both hold it has been ended.
   */
  lemma EveryRun(f: Framer<Head>, limit: Limited, now: int, steps: seq<Step>)
    ensures var s := Run(f, limit, Start(limit, now), steps);
            && |s.jobs| == |s.history.messages|
            && (forall i: nat | i < |s.jobs| ::
                  && s.jobs[i].requestId == RequestIdOf(s.history.messages[i])
                  && Answers(s.written, i) <= 1
                  && (Writable(s) && s.jobs[i].phase != Handling ==> Answers(s.written, i) == 1))
            && OwnIds(s)
            && s.ends <= 1
            && (s.ends == 1 ==>
                  s.history.standing.Stopped? && forall i | 0 <= i < |s.jobs| :: s.jobs[i].phase == Finished)
            && (!s.destroyed && s.closeWhenIdle && s.inFlight == 0 ==> s.ends == 1)
  {
    StartInvariant(limit, now);
    RunKeeps(f, limit, Start(limit, now), steps);
    AllFinished(Run(f, limit, Start(limit, now), steps));
  }

  lemma AllFinished(s: State)
    requires s.inFlight == |Open(s.jobs)|
    ensures s.inFlight == 0 ==> forall i | 0 <= i < |s.jobs| :: s.jobs[i].phase == Finished
  {
    if s.inFlight == 0 {
      assert Open(s.jobs) == {};
      forall i | 0 <= i < |s.jobs| ensures s.jobs[i].phase == Finished {
        assert i !in Open(s.jobs);
      }
    }
  }

  /** Nothing is written after the socket was ended. */
  lemma NothingAfterEnd(f: Framer<Head>, limit: Limited, now: int, steps: seq<Step>, step: Step)
    requires var s := Run(f, limit, Start(limit, now), steps); s.ends == 1 && Enabled(s, step)
    ensures var s := Run(f, limit, Start(limit, now), steps);
            Next(f, limit, s, step).written == s.written && Next(f, limit, s, step).ends == 1
  {
    StartInvariant(limit, now);
    RunKeeps(f, limit, Start(limit, now), steps);
    QuietAfterEnd(f, limit, Run(f, limit, Start(limit, now), steps), step);
  }

  lemma QuietAfterEnd(f: Framer<Head>, limit: Limited, s: State, step: Step)
    requires Invariant(s) && s.ends == 1 && Enabled(s, step)
    ensures Next(f, limit, s, step).written == s.written && Next(f, limit, s, step).ends == 1
  {
    AllFinished(s);
  }

  // ---------------------------------------------------------------- who reaches a handler

  /**
   A request reaches its handler exactly when it has a token and is valid; everything has a token
   when rate limiting is off. A framing failure is answered, once.
   */
  ghost predicate Triaged(limit: Limited, s: State) {
    && (forall i | 0 <= i < |s.jobs| :: JobTriaged(limit, s.jobs[i]))
    && Faults(s.written) == if s.faultReply == NoFault then 0 else 1
  }

  predicate JobTriaged(limit: Limited, job: Job) {
    && (job.phase == Handling || job.handled <==> job.admitted && job.valid)
    && !(job.phase == Handling && job.handled)
    && (limit == None ==> job.admitted)
  }

  /** How many responses answer no request. */
  function Faults(written: seq<Response>): nat {
    if written == [] then 0
    else Faults(written[..|written| - 1]) + if written[|written| - 1].job == None then 1 else 0
  }

  lemma FaultsSnoc(written: seq<Response>, r: Response)
    ensures Faults(written + [r]) == Faults(written) + if r.job == None then 1 else 0
  {
    assert (written + [r])[..|written|] == written;
  }

  lemma RespondTriaged(s: State, i: nat)
    requires i < |s.jobs|
    ensures Faults(Respond(s, i).written) == Faults(s.written)
  {
    FaultsSnoc(s.written, Response(Some(i), s.jobs[i].requestId));
  }

  lemma DispatchTriaged(limit: Limited, s: State, message: Framed<Head>, now: int, invalid: set<nat>)
    requires !s.destroyed
    ensures var after := Dispatch(limit, s, message, now, invalid);
            && |after.jobs| == |s.jobs| + 1 && after.jobs[..|s.jobs|] == s.jobs
            && JobTriaged(limit, after.jobs[|s.jobs|])
            && (after.jobs[|s.jobs|].valid <==> |s.jobs| !in invalid)
            && (after.jobs[|s.jobs|].phase == Handling || after.jobs[|s.jobs|].phase == Writing)
            && !after.jobs[|s.jobs|].handled
            && Faults(after.written) == Faults(s.written)
            && after.faultReply == s.faultReply && !after.destroyed
  {
    RespondTriaged(Register(limit, s, message, now, invalid), |s.jobs|);
  }

  /** The jobs from `from` on are new: handled now if they may be, else answered. */
  ghost predicate NewJobs(limit: Limited, jobs: seq<Job>, from: nat, invalid: set<nat>) {
    forall i | from <= i < |jobs| ::
      && JobTriaged(limit, jobs[i])
      && (jobs[i].valid <==> i !in invalid)
      && (jobs[i].phase == Handling || jobs[i].phase == Writing)
      && !jobs[i].handled
  }

  lemma {:induction false} DispatchAllTriaged(
    limit: Limited, s: State, messages: seq<Framed<Head>>, now: int, invalid: set<nat>)
    requires !s.destroyed
    ensures var after := DispatchAll(limit, s, messages, now, invalid);
            && |after.jobs| == |s.jobs| + |messages| && after.jobs[..|s.jobs|] == s.jobs
            && NewJobs(limit, after.jobs, |s.jobs|, invalid)
            && Faults(after.written) == Faults(s.written) && after.faultReply == s.faultReply
    decreases |messages|
  {
    if messages != [] {
      var next := Dispatch(limit, s, messages[0], now, invalid);
      DispatchTriaged(limit, s, messages[0], now, invalid);
      DispatchAllTriaged(limit, next, messages[1..], now, invalid);
      var after := DispatchAll(limit, next, messages[1..], now, invalid);
      assert after.jobs[|s.jobs|] == after.jobs[..|next.jobs|][|s.jobs|];
      assert after.jobs[..|s.jobs|] == after.jobs[..|next.jobs|][..|s.jobs|];
    }
  }

  /**
   Of the requests one chunk completes, exactly those with a token that are valid are with their
   handler after the step; the others are answered already. With rate limiting off all have one.
   */
  lemma ReceiveTriages(f: Framer<Head>, limit: Limited, s: State, step: Step, i: nat)
    requires step.Receive? && Enabled(s, step)
    ensures var after := Next(f, limit, s, step);
            && |after.jobs| == |s.jobs| + |Completed(f, s.history, step.chunk).messages|
            && after.jobs[..|s.jobs|] == s.jobs
            && (|s.jobs| <= i < |after.jobs| ==>
                  && (after.jobs[i].phase == Handling <==> after.jobs[i].admitted && i !in step.invalid)
                  && (after.jobs[i].phase != Handling ==> after.jobs[i].phase == Writing)
                  && (limit == None ==> after.jobs[i].admitted))
  {
    DispatchAllTriaged(limit, s, Completed(f, s.history, step.chunk).messages, step.now, step.invalid);
  }

  lemma ReceiveKeepsTriaged(f: Framer<Head>, limit: Limited, s: State, step: Step)
    requires step.Receive? && Enabled(s, step) && Triaged(limit, s) && Invariant(s)
    ensures Triaged(limit, Next(f, limit, s, step))
  {
    var got := Completed(f, s.history, step.chunk);
    DispatchAllTriaged(limit, s, got.messages, step.now, step.invalid);
    var after := DispatchAll(limit, s, got.messages, step.now, step.invalid);
    forall i | 0 <= i < |after.jobs| ensures JobTriaged(limit, after.jobs[i]) {
      if i < |s.jobs| { assert after.jobs[i] == after.jobs[..|s.jobs|][i] == s.jobs[i]; }
    }
    DispatchAllMatch(limit, s, got.messages, step.now, step.invalid, s.history.messages);
    FaultsSnoc(after.written, Response(None, None));
  }

  lemma StepTriaged(f: Framer<Head>, limit: Limited, s: State, step: Step)
    requires Enabled(s, step) && Triaged(limit, s) && Invariant(s)
    ensures Triaged(limit, Next(f, limit, s, step))
  {
    match step
    case Receive(_, _, _) => ReceiveKeepsTriaged(f, limit, s, step);
    case HandlerDone(i) => HandlerDoneTriaged(limit, s, i);
    case WriteDone(i) => MovedTriaged(limit, s, i, Returning);
    case Finally(i) =>
      MovedTriaged(limit, s, i, Finished);
      QuietTriaged(limit, s.(jobs := Next(f, limit, s, step).jobs), Next(f, limit, s, step));
    case FaultWriteDone => QuietTriaged(limit, s, Next(f, limit, s, step));
    case _ => QuietTriaged(limit, s, Next(f, limit, s, step));
  }

  lemma HandlerDoneTriaged(limit: Limited, s: State, i: nat)
    requires Triaged(limit, s) && i < |s.jobs| && s.jobs[i].phase == Handling
    ensures Triaged(limit, Respond(Handled(s, i), i))
  {
    RespondTriaged(Handled(s, i), i);
  }

  lemma MovedTriaged(limit: Limited, s: State, i: nat, phase: Phase)
    requires Triaged(limit, s) && i < |s.jobs| && s.jobs[i].phase != Handling && phase != Handling
    ensures Triaged(limit, s.(jobs := s.jobs[i := s.jobs[i].(phase := phase)]))
  {}

  lemma QuietTriaged(limit: Limited, s: State, t: State)
    requires Triaged(limit, s) && t.jobs == s.jobs && t.written == s.written
    requires t.faultReply == NoFault <==> s.faultReply == NoFault
    ensures Triaged(limit, t)
  {}

  lemma {:induction false} RunTriaged(f: Framer<Head>, limit: Limited, s: State, steps: seq<Step>)
    requires Triaged(limit, s) && Invariant(s)
    ensures Triaged(limit, Run(f, limit, s, steps))
    decreases |steps|
  {
    if steps != [] {
      var next := if Enabled(s, steps[0]) then Next(f, limit, s, steps[0]) else s;
      if Enabled(s, steps[0]) {
        StepKeeps(f, limit, s, steps[0]);
        StepTriaged(f, limit, s, steps[0]);
      }
      RunTriaged(f, limit, next, steps[1..]);
    }
  }

  /**
   In every run: a request is with its handler, or was, exactly when it had a token and was valid;
   with rate limiting off all have one; and a framing failure has exactly one response of its own.
   */
  lemma EveryRequestIsTriaged(f: Framer<Head>, limit: Limited, now: int, steps: seq<Step>)
    ensures var s := Run(f, limit, Start(limit, now), steps);
            && (forall i | 0 <= i < |s.jobs| ::
                  && (s.jobs[i].phase == Handling || s.jobs[i].handled <==> s.jobs[i].admitted && s.jobs[i].valid)
                  && (limit == None ==> s.jobs[i].admitted))
            && Faults(s.written) == if s.history.standing.Stopped? then 1 else 0
  {
    StartInvariant(limit, now);
    RunKeeps(f, limit, Start(limit, now), steps);
    RunTriaged(f, limit, Start(limit, now), steps);
  }

  // ---------------------------------------------------------------- nothing gets stuck

  function Work(phase: Phase): nat {
    match phase
    case Handling => 3
    case Writing => 2
    case Returning => 1
    case Finished => 0
  }

  /** The step that moves an unfinished request on. */
  function NextStep(job: Job, i: nat): Step {
    match job.phase
    case Handling => HandlerDone(i)
    case Writing => WriteDone(i)
    case _ => Finally(i)
  }

  /** The first `n` requests are finished and the rest as they were. */
  ghost predicate SettledUpTo(s: State, t: State, n: nat) {
    && |t.jobs| == |s.jobs| && n <= |s.jobs|
    && (forall i | 0 <= i < n :: t.jobs[i].phase == Finished)
    && t.history == s.history && t.faultReply == s.faultReply && t.destroyed == s.destroyed
  }

  lemma Moves(f: Framer<Head>, limit: Limited, s: State, i: nat)
    requires i < |s.jobs| && s.jobs[i].phase != Finished
    ensures var step := NextStep(s.jobs[i], i);
            && Enabled(s, step)
            && var t := Next(f, limit, s, step);
            && |t.jobs| == |s.jobs| && Work(t.jobs[i].phase) < Work(s.jobs[i].phase)
            && (forall j | 0 <= j < |s.jobs| && j != i :: t.jobs[j] == s.jobs[j])
            && t.history == s.history && t.faultReply == s.faultReply && t.destroyed == s.destroyed
  {}

  /** Every request can be finished, one after the other, whatever the others are doing. */
  lemma {:induction false} CanFinish(f: Framer<Head>, limit: Limited, s: State, n: nat) returns (more: seq<Step>)
    requires Invariant(s) && SettledUpTo(s, s, n)
    ensures Invariant(Run(f, limit, s, more)) && SettledUpTo(s, Run(f, limit, s, more), |s.jobs|)
    decreases |s.jobs| - n, if n < |s.jobs| then Work(s.jobs[n].phase) else 0
  {
    if n == |s.jobs| { return []; }
    if s.jobs[n].phase == Finished {
      more := CanFinish(f, limit, s, n + 1);
      return;
    }
    var step := NextStep(s.jobs[n], n);
    Moves(f, limit, s, n);
    StepKeeps(f, limit, s, step);
    var t := Next(f, limit, s, step);
    var rest := CanFinish(f, limit, t, n);
    assert ([step] + rest)[1..] == rest;
    return [step] + rest;
  }

  lemma {:induction false} RunAppend(f: Framer<Head>, limit: Limited, s: State, a: seq<Step>, b: seq<Step>)
    ensures Run(f, limit, s, a + b) == Run(f, limit, Run(f, limit, s, a), b)
    decreases |a|
  {
    if a == [] {
      assert a + b == b;
    } else {
      assert (a + b)[1..] == a[1..] + b;
      RunAppend(f, limit, if Enabled(s, a[0]) then Next(f, limit, s, a[0]) else s, a[1..], b);
    }
  }

  /**
   No run gets stuck: from every reachable state the requests can all be finished, and after a
   fatal failure on a socket not destroyed the connection is then ended.
   */
  lemma CanAlwaysEnd(f: Framer<Head>, limit: Limited, now: int, steps: seq<Step>) returns (more: seq<Step>)
    ensures var s := Run(f, limit, Start(limit, now), steps);
            var t := Run(f, limit, s, more);
            && t.inFlight == 0
            && (s.history.standing.Stopped? && !s.destroyed ==> t.ends == 1)
  {
    StartInvariant(limit, now);
    RunKeeps(f, limit, Start(limit, now), steps);
    var s := Run(f, limit, Start(limit, now), steps);
    var finish := CanFinish(f, limit, s, 0);
    var t := Run(f, limit, s, finish);
    assert Open(t.jobs) == {};
    if t.faultReply == FaultWriting {
      StepKeeps(f, limit, t, FaultWriteDone);
      RunAppend(f, limit, s, finish, [FaultWriteDone]);
      assert [FaultWriteDone][1..] == [];
      return finish + [FaultWriteDone];
    }
    return finish;
  }

  // ---------------------------------------------------------------- the rate limit in every run

  /**
   The bucket is what the arrivals made of a full one; a request is admitted by the bucket it met,
   and one that was not never reaches a handler.
   */
  ghost predicate Metered(limit: Limited, full: RateLimit.Bucket, s: State) {
    && |s.arrivals| == |s.jobs|
    && (forall i | 0 <= i < |s.jobs| :: !s.jobs[i].admitted ==> s.jobs[i].phase != Handling)
    && (limit.Some? ==> && s.bucket == RateLimit.AfterAll(limit.value, full, s.arrivals)
                        && AdmittedByBucket(limit.value, full, s.jobs, s.arrivals))
  }

  ghost predicate AdmittedByBucket(limit: RateLimit.Limit, full: RateLimit.Bucket, jobs: seq<Job>, arrivals: seq<int>)
    requires |arrivals| == |jobs|
  {
    forall i | 0 <= i < |jobs| ::
      jobs[i].admitted == RateLimit.Admits(limit, RateLimit.AfterAll(limit, full, arrivals[..i]), arrivals[i])
  }

  /** The number of admitted requests among these. */
  function AdmittedOf(jobs: seq<Job>): nat {
    if jobs == [] then 0
    else AdmittedOf(jobs[..|jobs| - 1]) + if jobs[|jobs| - 1].admitted then 1 else 0
  }

  lemma RegisterMetered(
    limit: Limited, full: RateLimit.Bucket, s: State, message: Framed<Head>, now: int, invalid: set<nat>)
    requires Metered(limit, full, s)
    ensures var after := Register(limit, s, message, now, invalid);
            && |after.arrivals| == |after.jobs|
            && (limit.Some? ==> && after.bucket == RateLimit.AfterAll(limit.value, full, after.arrivals)
                                && AdmittedByBucket(limit.value, full, after.jobs, after.arrivals))
  {
    if limit.Some? {
      RateLimit.OneMore(limit.value, full, s.arrivals, now);
      OneMoreMet(limit.value, full, s.jobs, s.arrivals, Register(limit, s, message, now, invalid).jobs[|s.jobs|], now);
    }
  }

  lemma OneMoreMet(
    limit: RateLimit.Limit, full: RateLimit.Bucket, jobs: seq<Job>, arrivals: seq<int>, job: Job, now: int)
    requires |arrivals| == |jobs| && AdmittedByBucket(limit, full, jobs, arrivals)
    requires job.admitted == RateLimit.Admits(limit, RateLimit.AfterAll(limit, full, arrivals), now)
    ensures AdmittedByBucket(limit, full, jobs + [job], arrivals + [now])
  {
    forall i | 0 <= i <= |jobs| ensures (arrivals + [now])[..i] == arrivals[..i] {}
    assert arrivals[..|jobs|] == arrivals;
  }

  /** Moving a request on, not back to its handler, leaves the meter alone. */
  lemma MovedOn(limit: Limited, full: RateLimit.Bucket, s: State, i: nat, phase: Phase)
    requires Metered(limit, full, s) && i < |s.jobs| && phase != Handling
    ensures Metered(limit, full, s.(jobs := s.jobs[i := s.jobs[i].(phase := phase)]))
  {}

  lemma DispatchMetered(
    limit: Limited, full: RateLimit.Bucket, s: State, message: Framed<Head>, now: int, invalid: set<nat>)
    requires Metered(limit, full, s)
    ensures Metered(limit, full, Dispatch(limit, s, message, now, invalid))
  {
    RegisterMetered(limit, full, s, message, now, invalid);
  }

  lemma {:induction false} DispatchAllMetered(
    limit: Limited, full: RateLimit.Bucket, s: State, messages: seq<Framed<Head>>, now: int, invalid: set<nat>)
    requires Metered(limit, full, s)
    ensures Metered(limit, full, DispatchAll(limit, s, messages, now, invalid))
    decreases |messages|
  {
    if messages != [] {
      DispatchMetered(limit, full, s, messages[0], now, invalid);
      DispatchAllMetered(limit, full, Dispatch(limit, s, messages[0], now, invalid), messages[1..], now, invalid);
    }
  }

  /** The meter looks at these fields only. */
  lemma MeterFramed(limit: Limited, full: RateLimit.Bucket, s: State, t: State)
    requires Metered(limit, full, s) && t.jobs == s.jobs && t.bucket == s.bucket && t.arrivals == s.arrivals
    ensures Metered(limit, full, t)
  {}

  lemma MeterFramedJobs(limit: Limited, full: RateLimit.Bucket, s: State, t: State)
    requires Metered(limit, full, s) && t.bucket == s.bucket && t.arrivals == s.arrivals && |t.jobs| == |s.jobs|
    requires forall i | 0 <= i < |s.jobs| ::
               t.jobs[i].admitted == s.jobs[i].admitted && t.jobs[i].phase == s.jobs[i].phase
    ensures Metered(limit, full, t)
  {}

  lemma StepMetered(f: Framer<Head>, limit: Limited, full: RateLimit.Bucket, s: State, step: Step)
    requires Metered(limit, full, s) && Enabled(s, step)
    ensures Metered(limit, full, Next(f, limit, s, step))
  {
    var t := Next(f, limit, s, step);
    match step
    case Receive(chunk, now, invalid) =>
      var got := Completed(f, s.history, chunk).messages;
      DispatchAllMetered(limit, full, s, got, now, invalid);
      MeterFramed(limit, full, DispatchAll(limit, s, got, now, invalid), t);
    case HandlerDone(i) =>
      MeterFramedJobs(limit, full, s, Handled(s, i));
      MoveMetered(limit, full, Handled(s, i), i, if s.destroyed then Returning else Writing, t);
    case WriteDone(i) => MoveMetered(limit, full, s, i, Returning, t);
    case Finally(i) => MoveMetered(limit, full, s, i, Finished, t);
    case _ => MeterFramed(limit, full, s, t);
  }

  lemma MoveMetered(limit: Limited, full: RateLimit.Bucket, s: State, i: nat, phase: Phase, t: State)
    requires Metered(limit, full, s) && i < |s.jobs| && phase != Handling
    requires t.jobs == s.jobs[i := s.jobs[i].(phase := phase)] && t.bucket == s.bucket && t.arrivals == s.arrivals
    ensures Metered(limit, full, t)
  {
    MovedOn(limit, full, s, i, phase);
    MeterFramed(limit, full, s.(jobs := t.jobs), t);
  }

  lemma {:induction false} RunMetered(
    f: Framer<Head>, limit: Limited, full: RateLimit.Bucket, s: State, steps: seq<Step>)
    requires Metered(limit, full, s)
    ensures Metered(limit, full, Run(f, limit, s, steps))
    decreases |steps|
  {
    if steps != [] {
      if Enabled(s, steps[0]) { StepMetered(f, limit, full, s, steps[0]); }
      RunMetered(f, limit, full, if Enabled(s, steps[0]) then Next(f, limit, s, steps[0]) else s, steps[1..]);
    }
  }

  /** The admissions of any window of requests are those of the bucket over that window. */
  lemma {:induction false} WindowCounted(
    limit: RateLimit.Limit, full: RateLimit.Bucket, jobs: seq<Job>, arrivals: seq<int>, i: nat, j: nat)
    requires |arrivals| == |jobs| && AdmittedByBucket(limit, full, jobs, arrivals) && i <= j <= |jobs|
    ensures AdmittedOf(jobs[i..j])
            == RateLimit.Admitted(limit, RateLimit.AfterAll(limit, full, arrivals[..i]), arrivals[i..j])
    decreases j
  {
    if i < j {
      WindowCounted(limit, full, jobs, arrivals, i, j - 1);
      assert jobs[i..j][..j - i - 1] == jobs[i..j - 1];
      assert arrivals[i..j] == arrivals[i..j - 1] + [arrivals[j - 1]];
      assert arrivals[..j - 1] == arrivals[..i] + arrivals[i..j - 1];
      var start := RateLimit.AfterAll(limit, full, arrivals[..i]);
      RateLimit.AfterParts(limit, full, arrivals[..i], arrivals[i..j - 1]);
      RateLimit.OneMore(limit, start, arrivals[i..j - 1], arrivals[j - 1]);
    }
  }

  /**
   Whatever the interleaving, of any requests a connection received one after the other it has
   admitted at most the capacity plus the refill between the first and the last of them, if its
   clock never went back; and no other request reached a handler.
   */
  lemma EveryRunIsMetered(f: Framer<Head>, limit: RateLimit.Limit, now: int, steps: seq<Step>, i: nat, j: nat)
    requires RateLimit.Sensible(limit)
    requires var s := Run(f, Some(limit), Start(Some(limit), now), steps);
             i < j <= |s.arrivals| && RateLimit.Forward(FullBucket(Some(limit), now), s.arrivals)
    ensures var s := Run(f, Some(limit), Start(Some(limit), now), steps);
            && |s.arrivals| == |s.jobs|
            && AdmittedOf(s.jobs[i..j]) as real
               <= limit.capacity + RateLimit.Gain(limit, s.arrivals[j - 1] - s.arrivals[i])
            && forall k | 0 <= k < |s.jobs| && s.jobs[k].phase == Handling :: s.jobs[k].admitted
  {
    var full := FullBucket(Some(limit), now);
    RunMetered(f, Some(limit), full, Start(Some(limit), now), steps);
    MeteredBound(limit, full, Run(f, Some(limit), Start(Some(limit), now), steps), i, j);
  }

  /** A connection admits its first requests up to the capacity, however close they come. */
  lemma FirstBurstAdmitted(f: Framer<Head>, limit: RateLimit.Limit, now: int, steps: seq<Step>, j: nat)
    requires RateLimit.Sensible(limit)
    requires var s := Run(f, Some(limit), Start(Some(limit), now), steps);
             && j <= |s.arrivals| && j as real <= limit.capacity
             && RateLimit.Forward(FullBucket(Some(limit), now), s.arrivals)
    ensures var s := Run(f, Some(limit), Start(Some(limit), now), steps);
            j <= |s.jobs| && AdmittedOf(s.jobs[..j]) == j
  {
    var full := FullBucket(Some(limit), now);
    RunMetered(f, Some(limit), full, Start(Some(limit), now), steps);
    BurstBound(limit, full, Run(f, Some(limit), Start(Some(limit), now), steps), j);
  }

  lemma BurstBound(limit: RateLimit.Limit, full: RateLimit.Bucket, s: State, j: nat)
    requires RateLimit.Sensible(limit) && RateLimit.InRange(limit, full)
    requires Metered(Some(limit), full, s) && j <= |s.arrivals| && j as real <= full.tokens
    requires RateLimit.Forward(full, s.arrivals)
    ensures AdmittedOf(s.jobs[..j]) == j
  {
    WindowCounted(limit, full, s.jobs, s.arrivals, 0, j);
    assert s.jobs[0..j] == s.jobs[..j] && s.arrivals[0..j] == s.arrivals[..j] && s.arrivals[..0] == [];
    RateLimit.BurstIsAdmitted(limit, full, s.arrivals[..j]);
  }

  lemma MeteredBound(limit: RateLimit.Limit, full: RateLimit.Bucket, s: State, i: nat, j: nat)
    requires RateLimit.Sensible(limit) && RateLimit.InRange(limit, full)
    requires Metered(Some(limit), full, s) && i < j <= |s.arrivals| && RateLimit.Forward(full, s.arrivals)
    ensures AdmittedOf(s.jobs[i..j]) as real
            <= limit.capacity + RateLimit.Gain(limit, s.arrivals[j - 1] - s.arrivals[i])
  {
    WindowCounted(limit, full, s.jobs, s.arrivals, i, j);
    RateLimit.ForwardParts(limit, full, s.arrivals, i, j);
    var window := s.arrivals[i..j];
    assert window[0] == s.arrivals[i] && window[|window| - 1] == s.arrivals[j - 1];
    RateLimit.WindowBound(limit, full, s.arrivals[..i], window);
  }

  // ---------------------------------------------------------------- the connection as an object

  /** The history only records what was decoded; dispatching does not look at it. */
  lemma {:induction false} DispatchIgnoresHistory(
    limit: Limited, s: State, messages: seq<Framed<Head>>, now: int, invalid: set<nat>, history: Decoded<Head>)
    ensures DispatchAll(limit, s.(history := history), messages, now, invalid)
            == DispatchAll(limit, s, messages, now, invalid).(history := history)
    decreases |messages|
  {
    if messages != [] {
      var next := Dispatch(limit, s, messages[0], now, invalid);
      DispatchIgnoresHistory(limit, next, messages[1..], now, invalid, history);
      assert Dispatch(limit, s.(history := history), messages[0], now, invalid) == next.(history := history);
    }
  }

  /** The variables of one connection. */
  class Connection {
    const decoder: SltpDecoder
    const limit: Limited
    var jobs: seq<Job>
    var written: seq<Response>
    var faultReply: FaultReply
    var inFlight: int
    var closeWhenIdle: bool
    var ends: nat
    var bucket: RateLimit.Bucket
    ghost var arrivals: seq<int>
    var peerEnded: bool
    var destroyed: bool

    ghost predicate Valid()
      reads this, decoder
    {
      decoder.Valid() && decoder.kind == Requests && Invariant(View())
    }

    ghost function View(): State
      reads this, decoder
    {
      State(decoder.history, jobs, written, faultReply, inFlight, closeWhenIdle, ends,
            bucket, arrivals, peerEnded, destroyed)
    }

    lemma Preserves(step: Step)
      requires Valid() && Enabled(View(), step)
      ensures Invariant(Next(decoder.F(), limit, View(), step))
    {
      StepKeeps(decoder.F(), limit, View(), step);
    }

    constructor (limits: Limits, limit: Limited, now: int)
      ensures Valid() && View() == Start(limit, now) && fresh(decoder) && this.limit == limit
    {
      decoder := new SltpDecoder(limits, Requests);
      this.limit := limit;
      jobs, written, faultReply := [], [], NoFault;
      inFlight, closeWhenIdle, ends, peerEnded, destroyed := 0, false, 0, false, false;
      bucket, arrivals := FullBucket(limit, now), [];
      new;
      StartInvariant(limit, now);
    }

    /** A chunk arrives: every event it completes is acted on before anything else runs. */
    method Receive(chunk: Bytes, now: int, invalid: set<nat>)
      requires Valid() && !peerEnded
      modifies this, decoder
      ensures Valid()
      ensures View() == if old(destroyed) then old(View())
                        else Next(decoder.F(), limit, old(View()), Step.Receive(chunk, now, invalid))
    {
      if destroyed {
        return;
      }
      Preserves(Step.Receive(chunk, now, invalid));
      ghost var before := View();
      ghost var got := Completed(decoder.F(), before.history, chunk);
      ghost var next := Next(decoder.F(), limit, before, Step.Receive(chunk, now, invalid));
      DispatchIgnoresHistory(limit, before, got.messages, now, invalid, Feed(decoder.F(), before.history, chunk));
      var events := Absorb(chunk);
      Act(events, now, invalid, got);
      assert View() == next;
    }

    /** The decoder takes the chunk. */
    method Absorb(chunk: Bytes) returns (events: seq<Event>)
      requires decoder.Valid()
      modifies decoder
      ensures decoder.Valid()
      ensures decoder.history == Feed(decoder.F(), old(decoder.history), chunk)
      ensures events == Events(Completed(decoder.F(), old(decoder.history), chunk))
    {
      events := decoder.Push(chunk);
    }

    /** The loop over the events of one chunk. */
    method Act(events: seq<Event>, now: int, invalid: set<nat>, ghost got: Decoded<Head>)
      requires events == Events(got)
      modifies this
      ensures var after := DispatchAll(limit, old(View()), got.messages, now, invalid);
              View() == if got.standing.Stopped? then ReportFault(after) else after
    {
      ghost var left := got;
      for k := 0 to |events|
        invariant events[k..] == Events(left) && left.standing == got.standing
        invariant DispatchAll(limit, View(), left.messages, now, invalid)
                  == DispatchAll(limit, old(View()), got.messages, now, invalid)
      {
        NextEvent(events, k, left);
        if events[k].ErrorEvent? {
          written := if peerEnded then written else written + [Response(None, None)];
          faultReply := FaultWriting;
          return;
        }
        BeginJob(events[k].message, now, invalid);
        left := left.(messages := left.messages[1..]);
      }
    }

    /** `dispatch` up to its first wait: counted in, metered, and answered here if refused. */
    method BeginJob(message: Framed<Head>, now: int, invalid: set<nat>)
      modifies this
      ensures View() == Dispatch(limit, old(View()), message, now, invalid)
    {
      var i := |jobs|;
      var admitted := ConsumeToken(now);
      inFlight := inFlight + 1;
      var valid := i !in invalid;
      jobs := jobs + [Job(GetHeader(message.head.headers, REQUEST_ID), Handling, admitted, valid, false)];
      if !admitted || !valid {
        WriteResponse(i);
      }
    }

    /** `consumeToken`, admitting everything when rate limiting is off. */
    method ConsumeToken(now: int) returns (admitted: bool)
      modifies `bucket, `arrivals
      ensures admitted == Admitted(limit, old(bucket), now) && bucket == Drawn(limit, old(bucket), now)
      ensures arrivals == old(arrivals) + [now]
    {
      arrivals := arrivals + [now];
      if limit == None {
        return true;
      }
      admitted := RateLimit.Admits(limit.value, bucket, now);
      bucket := RateLimit.After(limit.value, bucket, now);
    }

    /** The synchronous part of `writeResponse`, up to the write callback. */
    method WriteResponse(i: nat)
      requires i < |jobs|
      modifies `jobs, `written
      ensures View() == Respond(old(View()), i)
    {
      if destroyed {
        jobs := jobs[i := jobs[i].(phase := Returning)];
        return;
      }
      if !peerEnded {
        written := written + [Response(Some(i), jobs[i].requestId)];
      }
      jobs := jobs[i := jobs[i].(phase := Writing)];
    }

    method HandlerDone(i: nat)
      requires Valid() && Enabled(View(), Step.HandlerDone(i))
      modifies this
      ensures Valid() && View() == Next(decoder.F(), limit, old(View()), Step.HandlerDone(i))
    {
      Preserves(Step.HandlerDone(i));
      ghost var next := Next(decoder.F(), limit, View(), Step.HandlerDone(i));
      jobs := jobs[i := jobs[i].(handled := true)];
      WriteResponse(i);
      assert View() == next;
    }

    method WriteDone(i: nat)
      requires Valid() && Enabled(View(), Step.WriteDone(i))
      modifies this
      ensures Valid() && View() == Next(decoder.F(), limit, old(View()), Step.WriteDone(i))
    {
      Preserves(Step.WriteDone(i));
      ghost var next := Next(decoder.F(), limit, View(), Step.WriteDone(i));
      jobs := jobs[i := jobs[i].(phase := Returning)];
      assert View() == next;
    }

    /** The `finally` of `dispatch`: the last handler out ends a connection marked for closing. */
    method Finally(i: nat)
      requires Valid() && Enabled(View(), Step.Finally(i))
      modifies this
      ensures Valid() && View() == Next(decoder.F(), limit, old(View()), Step.Finally(i))
    {
      Preserves(Step.Finally(i));
      ghost var next := Next(decoder.F(), limit, View(), Step.Finally(i));
      Depart(i);
      assert View() == next;
    }

    method Depart(i: nat)
      requires i < |jobs|
      modifies `jobs, `inFlight, `ends
      ensures View() == EndIfIdle(old(View()).(jobs := old(jobs)[i := old(jobs)[i].(phase := Finished)],
                                               inFlight := old(inFlight) - 1))
    {
      Release(i);
      if closeWhenIdle && inFlight == 0 {
        EndSocket();
      }
    }

    method Release(i: nat)
      requires i < |jobs|
      modifies `jobs, `inFlight
      ensures jobs == old(jobs)[i := old(jobs)[i].(phase := Finished)] && inFlight == old(inFlight) - 1
    {
      jobs := jobs[i := jobs[i].(phase := Finished)];
      inFlight := inFlight - 1;
    }

    /** The rest of the `writeResponse` that answers a fatal failure. */
    method FaultWriteDone()
      requires Valid() && Enabled(View(), Step.FaultWriteDone)
      modifies this
      ensures Valid() && View() == Next(decoder.F(), limit, old(View()), Step.FaultWriteDone)
    {
      Preserves(Step.FaultWriteDone);
      ghost var next := Next(decoder.F(), limit, View(), Step.FaultWriteDone);
      faultReply, closeWhenIdle := FaultWritten, true;
      if inFlight == 0 {
        EndSocket();
      }
      assert View() == next;
    }

    method EndSocket()
      modifies `ends
      ensures ends == if destroyed then old(ends) else old(ends) + 1
    {
      if destroyed {
        return;
      }
      ends := ends + 1;
    }
  }
}
