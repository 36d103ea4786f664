/**
 The response chain of one mock-endpoint connection (packages/core/src/mock-endpoint.ts, lines
 109-315): a promise chain runs one task at a time, cut at every awaited write and delay.
 */
module ResponseChain {
  import opened Octets
  import opened Reasons
  import opened HeaderParser
  import opened Framing
  import opened Decoder
  import opened Encoder
  import opened RoundTrip
  import opened Matching
  import opened MockEndpoint
  import opened RequestIds
  import opened MockResponse

  /** A task holds the request it answers. */
  datatype Task = Answer(request: Framed<Head>) | ReportFault | EndSocket

  /** The task being run: the writes still to make, and whether it destroys the socket at its end. */
  datatype Current = Current(left: seq<Bytes>, destroys: bool)

  /**
   `received` records the chunks; `begun`, `choices` and `responses` the tasks started, what was
   decided for each and its whole response.
   */
  datatype State = State(
    history: Decoded<Head>,
    received: seq<Bytes>,
    queue: seq<Task>,
    current: Option<Current>,
    begun: seq<Task>,
    choices: seq<Choice>,
    responses: seq<Bytes>,
    sent: Bytes,
    ended: bool,
    peerEnded: bool,
    destroyed: bool)

  const START: State := State(Decoded([], Waiting([])), [], [], None, [], [], [], [], false, false, false)

  /** The peer's end of stream ends the socket: later writes are lost though it is not destroyed yet. */
  datatype Step = Receive(chunk: Bytes) | Begin(choice: Choice) | WriteNext | FinishTask | PeerEnd | Destroy

  function Answers(requests: seq<Framed<Head>>): (tasks: seq<Task>)
    ensures |tasks| == |requests| && forall i | 0 <= i < |tasks| :: tasks[i] == Answer(requests[i])
  {
    seq(|requests|, i requires 0 <= i < |requests| => Answer(requests[i]))
  }

  function Closing(standing: Standing): seq<Task> {
    if standing.Stopped? then [ReportFault, EndSocket] else []
  }

  /** All tasks the decoded history calls for, in the order of its events. */
  function TasksOf(history: Decoded<Head>): seq<Task> { Answers(history.messages) + Closing(history.standing) }

  /** A choice made for this task. */
  predicate Suited(task: Task, choice: Choice) {
    match task
    case Answer(_) => choice.Answering?
    case ReportFault => choice.Reporting?
    case EndSocket => true
  }

  function PlanFor(lib: Library, task: Task, choice: Choice): Plan
    requires Suited(task, choice)
  {
    match task
    case Answer(request) => PlanOf(ReplyTo(lib, request, choice))
    case ReportFault => PlanOf(FaultReply(choice))
    case EndSocket => Nothing
  }

  predicate Enabled(s: State, step: Step) {
    match step
    case Receive(_) => Writable(s)
    case Begin(choice) => s.current == None && s.queue != [] && Suited(s.queue[0], choice)
    case WriteNext => s.current.Some? && s.current.value.left != []
    case FinishTask => s.current.Some? && s.current.value.left == []
    case PeerEnd => !s.destroyed
    case Destroy => !s.destroyed
  }

  /** The connection still carries responses. */
  predicate Writable(s: State) { !s.destroyed && !s.peerEnded }

  function Next(f: Framer<Head>, lib: Library, s: State, step: Step): State
    requires Enabled(s, step)
  {
    match step
    case Receive(chunk) =>
      var now := Completed(f, s.history, chunk);
      s.(received := s.received + [chunk],
         history := Feed(f, s.history, chunk),
         queue := s.queue + Answers(now.messages) + Closing(now.standing))
    case Begin(choice) => Start(s, choice, PlanFor(lib, s.queue[0], choice))
    case WriteNext =>
      if s.destroyed then s.(current := None)
      else s.(sent := if s.peerEnded then s.sent else s.sent + s.current.value.left[0],
              current := Some(s.current.value.(left := s.current.value.left[1..])))
    case FinishTask => s.(destroyed := s.destroyed || s.current.value.destroys, current := None)
    case PeerEnd => s.(peerEnded := true)
    case Destroy => s.(destroyed := true)
  }

  /** The first task of the queue starts with its plan; a destroyed socket makes it do nothing. */
  function Start(s: State, choice: Choice, plan: Plan): State
    requires s.queue != []
  {
    var next := s.(queue := s.queue[1..], begun := s.begun + [s.queue[0]],
                   choices := s.choices + [choice], responses := s.responses + [Response(plan)]);
    if s.queue[0] == EndSocket then next.(ended := !s.destroyed)
    else if s.destroyed then next
    else next.(current := Some(Current(Chunks(plan), plan.CutShort?)))
  }

  function Run(f: Framer<Head>, lib: Library, s: State, steps: seq<Step>): State
    decreases |steps|
  {
    if steps == [] then s
    else Run(f, lib, if Enabled(s, steps[0]) then Next(f, lib, s, steps[0]) else s, steps[1..])
  }

  // ---------------------------------------------------------------- the invariant

  /** What the current task still has to write. */
  function Left(s: State): Bytes {
    if s.current.Some? then Concat(s.current.value.left) else []
  }

  /** Tasks start in the order of the events, and the events are those of the chunks received. */
  ghost predicate InOrder(f: Framer<Head>, s: State) {
    && s.history == FeedAll(f, s.received)
    && s.begun + s.queue == TasksOf(s.history)
    && (s.ended ==> s.queue == [] && s.current == None && s.history.standing.Stopped?)
  }

  /** The wire carries whole responses one after the other; only a lost or cut connection stops short. */
  ghost predicate WireSound(s: State) {
    && s.sent <= Concat(s.responses)
    && (!s.peerEnded ==> s.sent + Left(s) <= Concat(s.responses))
    && (Writable(s) && !(s.current.Some? && s.current.value.destroys) ==> s.sent + Left(s) == Concat(s.responses))
  }

  /** Each response is the one its task and the choice made for it call for. */
  ghost predicate Recorded(lib: Library, s: State) {
    && |s.begun| == |s.choices| == |s.responses|
    && forall k | 0 <= k < |s.begun| ::
         Suited(s.begun[k], s.choices[k]) && s.responses[k] == Response(PlanFor(lib, s.begun[k], s.choices[k]))
  }

  ghost predicate Invariant(f: Framer<Head>, lib: Library, s: State) {
    InOrder(f, s) && WireSound(s) && Recorded(lib, s)
  }

  lemma AnswersAppend(a: seq<Framed<Head>>, b: seq<Framed<Head>>)
    ensures Answers(a + b) == Answers(a) + Answers(b)
  {}

  lemma AnswersSnoc(queue: seq<Task>, requests: seq<Framed<Head>>, last: Framed<Head>)
    ensures queue + Answers(requests) + [Answer(last)] == queue + Answers(requests + [last])
  {
    assert queue + Answers(requests) + [Answer(last)] == queue + (Answers(requests) + [Answer(last)]);
    assert Answers(requests + [last]) == Answers(requests) + [Answer(last)];
  }

  lemma ShiftOne(done: seq<Framed<Head>>, left: seq<Framed<Head>>)
    requires left != []
    ensures (done + [left[0]]) + left[1..] == done + left
  {}

  lemma ReceiveKeeps(f: Framer<Head>, lib: Library, s: State, chunk: Bytes)
    requires InOrder(f, s) && Writable(s)
    ensures InOrder(f, Next(f, lib, s, Receive(chunk)))
  {
    FeedStep(f, s.received, chunk);
    var now := Completed(f, s.history, chunk);
    AnswersAppend(s.history.messages, now.messages);
    if s.history.standing.Waiting? {
      QueueGrows(s.begun, s.queue, s.history.messages, Answers(now.messages), Closing(now.standing));
    } else {
      assert s.queue + Answers([]) + [] == s.queue;
    }
  }

  lemma QueueGrows(begun: seq<Task>, queue: seq<Task>, done: seq<Framed<Head>>, more: seq<Task>, closing: seq<Task>)
    requires begun + queue == Answers(done) + []
    ensures begun + (queue + more + closing) == (Answers(done) + more) + closing
  {
    assert begun + (queue + more + closing) == (begun + queue) + more + closing;
    assert Answers(done) + [] == Answers(done);
  }

  lemma BeginInOrder(f: Framer<Head>, s: State, choice: Choice, plan: Plan)
    requires InOrder(f, s) && s.current == None && s.queue != []
    ensures InOrder(f, Start(s, choice, plan))
  {
    assert s.begun + s.queue == (s.begun + [s.queue[0]]) + s.queue[1..];
    if s.queue[0] == EndSocket { EndIsLast(f, s); }
  }

  /** The end of the socket is the last task there will ever be. */
  lemma EndIsLast(f: Framer<Head>, s: State)
    requires InOrder(f, s) && s.queue != [] && s.queue[0] == EndSocket
    ensures s.queue[1..] == [] && s.history.standing.Stopped?
  {
    var all, at := TasksOf(s.history), |s.begun|;
    assert all[at] == EndSocket;
    assert at >= |s.history.messages|;
  }

  lemma BeginOnWire(s: State, choice: Choice, plan: Plan)
    requires WireSound(s) && s.current == None && s.queue != []
    requires s.queue[0] == EndSocket ==> plan == Nothing
    ensures WireSound(Start(s, choice, plan))
  {
    ConcatSnoc(s.responses, Response(plan));
    ChunksAreTheResponse(plan);
    assert s.sent + [] == s.sent;
  }

  lemma BeginKeeps(f: Framer<Head>, lib: Library, s: State, choice: Choice)
    requires Invariant(f, lib, s) && Enabled(s, Begin(choice))
    ensures Invariant(f, lib, Next(f, lib, s, Begin(choice)))
  {
    var plan := PlanFor(lib, s.queue[0], choice);
    BeginInOrder(f, s, choice, plan);
    BeginOnWire(s, choice, plan);
    BeginRecorded(lib, s, choice);
  }

  lemma BeginRecorded(lib: Library, s: State, choice: Choice)
    requires Recorded(lib, s) && s.queue != [] && Suited(s.queue[0], choice)
    ensures Recorded(lib, Start(s, choice, PlanFor(lib, s.queue[0], choice)))
  {}

  lemma WriteKeeps(s: State)
    requires WireSound(s) && s.current.Some? && s.current.value.left != [] && !s.destroyed
    ensures var left := s.current.value.left;
            WireSound(s.(sent := if s.peerEnded then s.sent else s.sent + left[0],
                         current := Some(s.current.value.(left := left[1..]))))
  {
    var first, rest := s.current.value.left[0], Concat(s.current.value.left[1..]);
    Reassociate(s.sent, first, rest);
    assert s.sent + first <= (s.sent + first) + rest;
  }

  lemma StepKeeps(f: Framer<Head>, lib: Library, s: State, step: Step)
    requires Invariant(f, lib, s) && Enabled(s, step)
    ensures Invariant(f, lib, Next(f, lib, s, step))
  {
    assert s.sent + [] == s.sent;
    match step
    case Receive(chunk) => ReceiveKeeps(f, lib, s, chunk);
    case Begin(choice) => BeginKeeps(f, lib, s, choice);
    case WriteNext => if !s.destroyed { WriteKeeps(s); }
    case _ =>
  }

  lemma {:induction false} RunKeeps(f: Framer<Head>, lib: Library, s: State, steps: seq<Step>)
    requires Invariant(f, lib, s)
    ensures Invariant(f, lib, Run(f, lib, s, steps))
    decreases |steps|
  {
    if steps != [] {
      if Enabled(s, steps[0]) { StepKeeps(f, lib, s, steps[0]); }
      RunKeeps(f, lib, if Enabled(s, steps[0]) then Next(f, lib, s, steps[0]) else s, steps[1..]);
    }
  }

  // ---------------------------------------------------------------- over all runs

  lemma EveryState(f: Framer<Head>, lib: Library, steps: seq<Step>)
    ensures Invariant(f, lib, Run(f, lib, START, steps))
  {
    RunKeeps(f, lib, START, steps);
  }

  /**
   Responses leave whole and in request order under any timing: the octets sent are a prefix of
   the concatenated responses of the tasks begun, all of it when the chain is idle and the
   connection still carries responses; each response is the one chosen for its task; and tasks
   begin in the order their requests were decoded from the chunks received.
   */
  lemma EveryRun(f: Framer<Head>, lib: Library, steps: seq<Step>)
    ensures var s := Run(f, lib, START, steps);
            && s.history == FeedAll(f, s.received)
            && s.begun <= TasksOf(s.history)
            && Recorded(lib, s)
            && s.sent <= Concat(s.responses)
            && (Writable(s) && s.current == None ==> s.sent == Concat(s.responses))
            && (s.ended ==> s.begun == TasksOf(s.history) && s.history.standing.Stopped?)
  {
    EveryState(f, lib, steps);
    var s := Run(f, lib, START, steps);
    assert s.sent + [] == s.sent;
  }

  /** After a fatal failure's close no step sends or begins anything. */
  lemma NothingAfterEnd(f: Framer<Head>, lib: Library, steps: seq<Step>, step: Step)
    requires Run(f, lib, START, steps).ended && Enabled(Run(f, lib, START, steps), step)
    ensures var s := Run(f, lib, START, steps);
            var after := Next(f, lib, s, step);
            after.sent == s.sent && after.begun == s.begun && after.ended
  {
    EveryState(f, lib, steps);
  }

  /**
   In any run the k-th task answers the k-th request decoded, with a response that bears exactly
   that request's Request-ID, as long as the rules leave that header alone.
   */
  lemma EveryAnswerBearsItsId(limits: Limits, lib: Library, steps: seq<Step>, k: nat)
    requires var s := Run(SltpFramer(limits, Requests), lib, START, steps);
             && k < |s.begun| && s.begun[k].Answer? && k < |s.choices| && s.choices[k].Answering?
             && PlainRules(s.choices[k].rules)
             && (s.choices[k].refusal.Some? ==> ValidProblem(s.choices[k].refusal.value))
    ensures var s := Run(SltpFramer(limits, Requests), lib, START, steps);
            && k < |s.history.messages| && k < |s.responses|
            && s.begun[k].request == s.history.messages[k]
            && var reply := ReplyTo(lib, s.history.messages[k], s.choices[k]).message;
            && Fields(reply).Ok? && s.responses[k] == Encode(reply).value
            && IdValues(Fields(reply).value) == Just(OwnId(s.history.messages[k]))
  {
    var f := SltpFramer(limits, Requests);
    EveryRun(f, lib, steps);
    var s := Run(f, lib, START, steps);
    NthTask(s.history, s.begun, k);
    FedValid(limits, Requests, s.received);
    AnswerBearsItsId(lib, s.begun[k].request, s.choices[k]);
  }

  lemma AnswerBearsItsId(lib: Library, request: Framed<Head>, choice: Choice)
    requires ValidFields(request.head.headers) && choice.Answering? && PlainRules(choice.rules)
    requires choice.refusal.Some? ==> ValidProblem(choice.refusal.value)
    ensures var reply := ReplyTo(lib, request, choice).message;
            && Fields(reply).Ok?
            && Response(PlanFor(lib, Answer(request), choice)) == Encode(reply).value
            && IdValues(Fields(reply).value) == Just(OwnId(request))
  {
    NeverSilent(lib, request, choice);
    ReplyBearsOwnId(lib, request, choice);
  }

  /** In any run the answer to a fatal failure is the response for it, closing, and it can be encoded. */
  lemma EveryFaultIsAnswered(f: Framer<Head>, lib: Library, steps: seq<Step>, k: nat)
    requires var s := Run(f, lib, START, steps);
             && k < |s.begun| && s.begun[k] == ReportFault && k < |s.choices| && s.choices[k].Reporting?
             && ValidProblem(s.choices[k].fault)
    ensures var s := Run(f, lib, START, steps);
            var reply := ErrorReply(s.choices[k].fault, None, true);
            Encode(reply).Ok? && k < |s.responses| && s.responses[k] == Encode(reply).value
  {
    EveryRun(f, lib, steps);
    ErrorEncodes(Run(f, lib, START, steps).choices[k].fault, None, true);
  }

  lemma NthTask(history: Decoded<Head>, begun: seq<Task>, k: nat)
    requires begun <= TasksOf(history) && k < |begun| && begun[k].Answer?
    ensures k < |history.messages| && begun[k].request == history.messages[k]
  {
    assert begun[k] == TasksOf(history)[k];
    if k < |history.messages| { assert TasksOf(history)[k] == Answers(history.messages)[k]; }
  }

  /** The chain is never stuck: whatever is to do next can be done, on a lost connection too. */
  lemma NeverStuck(f: Framer<Head>, lib: Library, s: State, choice: Choice)
    requires s.current.Some? || (s.queue != [] && Suited(s.queue[0], choice))
    ensures if s.current == None then
              Enabled(s, Begin(choice)) && |Next(f, lib, s, Begin(choice)).queue| == |s.queue| - 1
            else if s.current.value.left == [] then
              Enabled(s, FinishTask) && Next(f, lib, s, FinishTask).current == None
            else
              && Enabled(s, WriteNext)
              && var after := Next(f, lib, s, WriteNext).current;
                 after == None || |after.value.left| < |s.current.value.left|
  {}

  // ---------------------------------------------------------------- failures and cuts

  /**
   Once it has begun, the end of the socket has happened, and a response cut short has destroyed the
   socket or is about to; a lost socket excuses the first.
   */
  ghost predicate Concluded(lib: Library, s: State) {
    && |s.begun| == |s.choices|
    && (EndSocket in s.begun ==> s.ended || s.destroyed)
    && (HasCut(lib, s) ==> s.destroyed || (s.current.Some? && s.current.value.destroys))
  }

  ghost predicate HasCut(lib: Library, s: State)
    requires |s.begun| == |s.choices|
  {
    exists k | 0 <= k < |s.begun| :: IsCut(lib, s.begun[k], s.choices[k])
  }

  predicate IsCut(lib: Library, task: Task, choice: Choice) {
    Suited(task, choice) && PlanFor(lib, task, choice).CutShort?
  }

  lemma StartConcluded(lib: Library, s: State, choice: Choice)
    requires Concluded(lib, s) && s.current == None && s.queue != [] && Suited(s.queue[0], choice)
    ensures Concluded(lib, Start(s, choice, PlanFor(lib, s.queue[0], choice)))
  {
    var t := Start(s, choice, PlanFor(lib, s.queue[0], choice));
    if HasCut(lib, t) {
      var k :| 0 <= k < |t.begun| && IsCut(lib, t.begun[k], t.choices[k]);
      if k < |s.begun| { assert IsCut(lib, s.begun[k], s.choices[k]); }
    }
    if EndSocket in t.begun && s.queue[0] != EndSocket { assert EndSocket in s.begun; }
  }

  lemma StepConcluded(f: Framer<Head>, lib: Library, s: State, step: Step)
    requires Concluded(lib, s) && Enabled(s, step)
    ensures Concluded(lib, Next(f, lib, s, step))
  {
    if step.Begin? { StartConcluded(lib, s, step.choice); }
  }

  lemma {:induction false} RunConcluded(f: Framer<Head>, lib: Library, s: State, steps: seq<Step>)
    requires Concluded(lib, s)
    ensures Concluded(lib, Run(f, lib, s, steps))
    decreases |steps|
  {
    if steps != [] {
      if Enabled(s, steps[0]) { StepConcluded(f, lib, s, steps[0]); }
      RunConcluded(f, lib, if Enabled(s, steps[0]) then Next(f, lib, s, steps[0]) else s, steps[1..]);
    }
  }

  /**
   In every run a fatal failure is answered after all requests and then the socket is ended: those
   are the last two tasks, and once all tasks are done on a socket not destroyed it has been ended.
   */
  lemma FailureEndsTheSocket(f: Framer<Head>, lib: Library, steps: seq<Step>)
    requires Run(f, lib, START, steps).history.standing.Stopped?
    ensures var s := Run(f, lib, START, steps);
            && s.begun + s.queue == Answers(s.history.messages) + [ReportFault, EndSocket]
            && (s.queue == [] && !s.destroyed ==> s.ended)
  {
    EveryState(f, lib, steps);
    RunConcluded(f, lib, START, steps);
    var s := Run(f, lib, START, steps);
    if s.queue == [] {
      assert s.begun + [] == s.begun;
      assert s.begun[|s.begun| - 1] == EndSocket;
    }
  }

  /** In every run a rule that cuts its response short has destroyed the socket once its task is done. */
  lemma CutDestroys(f: Framer<Head>, lib: Library, steps: seq<Step>, k: nat)
    requires var s := Run(f, lib, START, steps);
             && s.current == None && k < |s.begun| && k < |s.choices| && IsCut(lib, s.begun[k], s.choices[k])
    ensures Run(f, lib, START, steps).destroyed
  {
    RunConcluded(f, lib, START, steps);
  }

  /**
   Fragmentation end to end: however a scenario splits its requests into writes and however TCP
   delivers them, a run that received them all has one task for each request, in order, and, once
   idle on a living connection, has sent their responses whole, in order and nothing else.
   */
  lemma FragmentedRun(limits: Limits, lib: Library, steps: seq<Step>, ms: seq<Outgoing>, mode: Transmission)
    requires AllFitSafely(limits, Requests, ms)
    requires HasReceived(Run(SltpFramer(limits, Requests), lib, START, steps), ms, mode)
    ensures AnsweredAll(Run(SltpFramer(limits, Requests), lib, START, steps), ms)
  {
    var f := SltpFramer(limits, Requests);
    EveryState(f, lib, steps);
    ReceivedAll(limits, lib, Run(f, lib, START, steps), ms, mode);
  }

  /** The chunks received, however cut, are the writes planned for the encodings of `ms`. */
  predicate HasReceived(s: State, ms: seq<Outgoing>, mode: Transmission)
    requires AllEncodable(ms)
  {
    Concat(s.received) == Concat(PlanWrites(Concat(Encodings(ms)), mode))
  }

  /** One task for each of `ms`, in order; when idle, all their responses are sent whole, in order. */
  ghost predicate AnsweredAll(s: State, ms: seq<Outgoing>)
    requires AllEncodable(ms)
  {
    && s.history.messages == AllReported(ms)
    && s.begun + s.queue == Answers(AllReported(ms))
    && (s.queue == [] && s.current == None && Writable(s) ==>
          |s.responses| == |ms| && s.sent == Concat(s.responses))
  }

  lemma ReceivedAll(limits: Limits, lib: Library, s: State, ms: seq<Outgoing>, mode: Transmission)
    requires AllFitSafely(limits, Requests, ms)
    requires Invariant(SltpFramer(limits, Requests), lib, s)
    requires HasReceived(s, ms, mode)
    ensures AnsweredAll(s, ms)
  {
    FragmentationInvisible(limits, ms, mode, s.received);
    AllTasks(s.history, AllReported(ms));
    if s.queue == [] && s.current == None && Writable(s) {
      Idle(s);
      assert s.begun + [] == s.begun;
    }
  }

  lemma AllTasks(history: Decoded<Head>, requests: seq<Framed<Head>>)
    requires history == Decoded(requests, Waiting([]))
    ensures TasksOf(history) == Answers(requests)
  {}

  lemma Idle(s: State)
    requires WireSound(s) && s.current == None && Writable(s)
    ensures s.sent == Concat(s.responses)
  {
    assert s.sent + [] == s.sent;
  }

  // ---------------------------------------------------------------- the connection as an object

  /** One connection of a mock endpoint: its decoder, and the chain as the list of tasks to come. */
  class MockConnection {
    const decoder: SltpDecoder
    const lib: Library
    var queue: seq<Task>
    var current: Option<Current>
    var sent: Bytes
    var ended: bool
    var peerEnded: bool
    var destroyed: bool
    ghost var received: seq<Bytes>
    ghost var begun: seq<Task>
    ghost var choices: seq<Choice>
    ghost var responses: seq<Bytes>

    ghost function View(): State
      reads this, decoder
    {
      State(decoder.history, received, queue, current, begun, choices, responses, sent, ended, peerEnded, destroyed)
    }

    ghost predicate Valid()
      reads this, decoder
    {
      decoder.Valid() && decoder.kind == Requests && Invariant(decoder.F(), lib, View())
    }

    lemma Preserves(step: Step)
      requires Valid() && Enabled(View(), step)
      ensures Invariant(decoder.F(), lib, Next(decoder.F(), lib, View(), step))
    {
      StepKeeps(decoder.F(), lib, View(), step);
    }

    constructor (limits: Limits, lib: Library)
      ensures Valid() && View() == START && fresh(decoder) && this.lib == lib
    {
      decoder := new SltpDecoder(limits, Requests);
      this.lib := lib;
      queue, current, sent, ended, peerEnded, destroyed := [], None, [], false, false, false;
      received, begun, choices, responses := [], [], [], [];
    }

    /** A chunk arrives: each request, or the failure, is put at the end of the chain. */
    method Receive(chunk: Bytes)
      requires Valid() && Enabled(View(), Step.Receive(chunk))
      modifies this, decoder
      ensures Valid() && View() == Next(decoder.F(), lib, old(View()), Step.Receive(chunk))
    {
      Preserves(Step.Receive(chunk));
      ghost var next := Next(decoder.F(), lib, View(), Step.Receive(chunk));
      ghost var now := Completed(decoder.F(), decoder.history, chunk);
      var events := Absorb(chunk);
      Append(events, now);
      assert View() == next;
    }

    /** The decoder takes the chunk. */
    method Absorb(chunk: Bytes) returns (events: seq<Event>)
      requires decoder.Valid()
      modifies `received, decoder
      ensures decoder.Valid() && received == old(received) + [chunk]
      ensures decoder.history == Feed(decoder.F(), old(decoder.history), chunk)
      ensures events == Events(Completed(decoder.F(), old(decoder.history), chunk))
    {
      received := received + [chunk];
      events := decoder.Push(chunk);
    }

    /** The loop over the events of one chunk. */
    method Append(events: seq<Event>, ghost now: Decoded<Head>)
      requires events == Events(now)
      modifies `queue
      ensures queue == old(queue) + Answers(now.messages) + Closing(now.standing)
    {
      ghost var left, done := now, [];
      for k := 0 to |events|
        invariant events[k..] == Events(left) && left.standing == now.standing
        invariant done + left.messages == now.messages
        invariant queue == old(queue) + Answers(done)
      {
        NextEvent(events, k, left);
        if events[k].ErrorEvent? {
          assert done == now.messages;
          queue := queue + [ReportFault, EndSocket];
          return;
        }
        AnswersSnoc(old(queue), done, left.messages[0]);
        queue := queue + [Answer(events[k].message)];
        ShiftOne(done, left.messages);
        done := done + [left.messages[0]];
        left := left.(messages := left.messages[1..]);
      }
    }

    /** The next task of the chain starts; its response is decided now. */
    method Begin(choice: Choice)
      requires Valid() && Enabled(View(), Step.Begin(choice))
      modifies this
      ensures Valid() && View() == Next(decoder.F(), lib, old(View()), Step.Begin(choice))
    {
      Preserves(Step.Begin(choice));
      ghost var next := Next(decoder.F(), lib, View(), Step.Begin(choice));
      var plan := Decide(queue[0], choice);
      Launch(choice, plan);
      assert View() == next;
    }

    method Launch(choice: Choice, plan: Plan)
      requires queue != []
      modifies this
      ensures View() == Start(old(View()), choice, plan)
    {
      var task := queue[0];
      queue := queue[1..];
      begun, choices, responses := begun + [task], choices + [choice], responses + [Response(plan)];
      if task == EndSocket {
        ended := !destroyed;
      } else if !destroyed {
        current := Some(Current(Chunks(plan), plan.CutShort?));
      }
    }

    method Decide(task: Task, choice: Choice) returns (plan: Plan)
      requires Suited(task, choice)
      ensures plan == PlanFor(lib, task, choice)
    {
      match task
      case Answer(request) => plan := Respond(lib, request, choice);
      case ReportFault => plan := WriteError(choice.fault, None, true);
      case EndSocket => plan := Nothing;
    }

    method WriteNext()
      requires Valid() && Enabled(View(), Step.WriteNext)
      modifies this
      ensures Valid() && View() == Next(decoder.F(), lib, old(View()), Step.WriteNext)
    {
      Preserves(Step.WriteNext);
      ghost var next := Next(decoder.F(), lib, View(), Step.WriteNext);
      if destroyed {
        current := None;
      } else {
        sent := if peerEnded then sent else sent + current.value.left[0];
        current := Some(current.value.(left := current.value.left[1..]));
      }
      assert View() == next;
    }

    method FinishTask()
      requires Valid() && Enabled(View(), Step.FinishTask)
      modifies this
      ensures Valid() && View() == Next(decoder.F(), lib, old(View()), Step.FinishTask)
    {
      Preserves(Step.FinishTask);
      ghost var next := Next(decoder.F(), lib, View(), Step.FinishTask);
      destroyed := destroyed || current.value.destroys;
      current := None;
      assert View() == next;
    }
  }
}
