/** The client's correlation of responses to requests (packages/core/src/client.ts). */
module Client {
  import opened Octets
  import opened Reasons
  import opened Headers
  import opened HeaderParser
  import opened Framing
  import opened Encoder
  import opened Decoder
  import opened RoundTrip
  import opened RequestIds
  import opened EncodedFields

  /** How a request ends: with its own request and the response, or with one of three errors. */
  datatype Settlement =
    | Resolved(request: Bytes, response: Framed<Head>)
    | TimedOut
    | ConnectionClosed
    | FramingFailed(reason: Reason)

  datatype SendFailure = NotConnected | NotEncodable

  datatype Socket = Live | Destroyed | Gone

  /**
   `pending` maps a Request-ID to the octets sent; `timers` are the armed timeouts; `issued`, `calls`
   and `settled` record every request ever registered, what was asked for and how it ended.
   */
  datatype State = State(
    history: Decoded<Head>,
    counter: nat,
    pending: map<Bytes, Bytes>,
    timers: set<Bytes>,
    issued: map<Bytes, Bytes>,
    settled: map<Bytes, Settlement>,
    calls: map<Bytes, Call>,
    socket: Socket)

  const START: State := State(Decoded([], Waiting([])), 0, map[], {}, map[], map[], map[], Live)

  /** What a caller asks to send: `headers` is a record, and a JSON body comes as its text. */
  datatype Call =
    Call(operation: Bytes, headers: seq<Entry>, sessionId: Option<Bytes>, body: Bytes, json: bool)

  /** The message for a call: the caller's headers, overwritten by the ids. */
  function RequestFor(call: Call, id: Bytes): Outgoing {
    var own := Assign(call.headers, "Request-ID", Some(id));
    Outgoing(RequestLine(call.operation),
             if call.sessionId.Some? then Assign(own, "Session-ID", call.sessionId) else own,
             call.body, call.json)
  }

  /** Ids count up process-wide; other clients may take `skipped` of them in between. */
  datatype Step =
    | Send(call: Call, skipped: nat)
    | TimerFires(id: Bytes)
    | Receive(chunk: Bytes)
    | Drop
    | CloseEvent

  function RequestId(n: nat): Bytes { "req-" + Decimal(n) }

  lemma RequestIdsDiffer(m: nat, n: nat)
    requires m != n
    ensures RequestId(m) != RequestId(n)
  {
    DecimalRoundTrip(m);
    DecimalRoundTrip(n);
    assert RequestId(m)[4..] == Decimal(m) && RequestId(n)[4..] == Decimal(n);
  }

  // ---------------------------------------------------------------- one step

  /** Takes one request out of the table and records how it ended. */
  function Settle(s: State, id: Bytes, how: Settlement): State {
    s.(pending := s.pending - {id}, timers := s.timers - {id}, settled := s.settled[id := how])
  }

  function SettleAll(s: State, how: Settlement): State {
    s.(pending := map[], timers := s.timers - s.pending.Keys,
       settled := s.settled + map id | id in s.pending :: how)
  }

  /** A response settles the pending request whose id it bears; any other changes nothing. */
  function Deliver(s: State, response: Framed<Head>): State {
    match GetHeader(response.head.headers, REQUEST_ID)
    case None => s
    case Some(id) => if id in s.pending then Settle(s, id, Resolved(s.pending[id], response)) else s
  }

  function DeliverAll(s: State, responses: seq<Framed<Head>>): State
    decreases |responses|
  {
    if responses == [] then s else DeliverAll(Deliver(s, responses[0]), responses[1..])
  }

  predicate Enabled(s: State, step: Step) {
    match step
    case Send(_, _) => s.socket == Live
    case TimerFires(id) => id in s.timers
    case Receive(_) => s.socket == Live
    case Drop => s.socket == Live
    case CloseEvent => s.socket != Gone
  }

  /** The request is pending under its id, with its timer armed. */
  function Register(s: State, n: nat, call: Call, request: Bytes): State {
    var id := RequestId(n);
    s.(counter := n,
       pending := s.pending[id := request],
       timers := s.timers + {id},
       issued := s.issued[id := request],
       calls := s.calls[id := call])
  }

  /** A request that cannot be encoded uses up its id only. */
  function Issue(s: State, n: nat, call: Call, encoded: Parse<Bytes>): State {
    if encoded.Err? then s.(counter := n) else Register(s, n, call, encoded.value)
  }

  function Next(f: Framer<Head>, s: State, step: Step): State
    requires Enabled(s, step)
  {
    match step
    case Send(call, skipped) =>
      var n := s.counter + skipped + 1;
      Issue(s, n, call, Encode(RequestFor(call, RequestId(n))))
    case TimerFires(id) => Settle(s, id, TimedOut)
    case Receive(chunk) =>
      if s.history.standing.Stopped? then s
      else
        var now := Decode(f, s.history.standing.rest + chunk);
        var after := DeliverAll(s, now.messages).(history := Feed(f, s.history, chunk));
        if now.standing.Stopped? then SettleAll(after, FramingFailed(now.standing.reason)).(socket := Destroyed)
        else after
    case Drop => s.(socket := Destroyed)
    case CloseEvent => SettleAll(s, ConnectionClosed).(history := Framing.End(s.history), socket := Gone)
  }

  function Run(f: Framer<Head>, s: State, steps: seq<Step>): State
    decreases |steps|
  {
    if steps == [] then s
    else Run(f, if Enabled(s, steps[0]) then Next(f, s, steps[0]) else s, steps[1..])
  }

  // ---------------------------------------------------------------- the invariant

  ghost predicate Invariant(s: State) {
    // Issued ids are split between the pending and the settled ones; live timers are the pending ones.
    && s.issued.Keys == s.pending.Keys + s.settled.Keys
    && s.pending.Keys !! s.settled.Keys
    && s.timers == s.pending.Keys
    && (forall id | id in s.pending :: s.pending[id] == s.issued[id])
    // A response settles only the request whose id it bears, and comes with that request.
    && (forall id | id in s.settled && s.settled[id].Resolved? ::
          && s.settled[id].request == s.issued[id]
          && GetHeader(s.settled[id].response.head.headers, REQUEST_ID) == Some(id))
    && (forall n | n > s.counter :: RequestId(n) !in s.issued)
    && (s.history.standing.Stopped? || s.socket == Gone ==> s.pending == map[] && s.socket != Live)
  }

  /** Nothing that ended ends again or differently. */
  ghost predicate Keeps(before: State, after: State) {
    && before.issued.Keys <= after.issued.Keys
    && forall id | id in before.settled :: id in after.settled && after.settled[id] == before.settled[id]
  }

  lemma SettleKeeps(s: State, id: Bytes, how: Settlement)
    requires Invariant(s) && id in s.pending
    requires how.Resolved? ==>
               how.request == s.issued[id] && GetHeader(how.response.head.headers, REQUEST_ID) == Some(id)
    ensures Invariant(Settle(s, id, how)) && Keeps(s, Settle(s, id, how))
  {}

  lemma SettleAllKeeps(s: State, how: Settlement)
    requires Invariant(s) && !how.Resolved?
    ensures Invariant(SettleAll(s, how)) && Keeps(s, SettleAll(s, how))
    ensures forall id | id in s.pending :: SettleAll(s, how).settled[id] == how
  {
    assert s.timers - s.pending.Keys == {};
  }

  lemma {:induction false} DeliverAllKeeps(s: State, responses: seq<Framed<Head>>)
    requires Invariant(s)
    ensures Invariant(DeliverAll(s, responses)) && Keeps(s, DeliverAll(s, responses))
    ensures DeliverAll(s, responses).socket == s.socket && DeliverAll(s, responses).history == s.history
    decreases |responses|
  {
    if responses != [] {
      var id := GetHeader(responses[0].head.headers, REQUEST_ID);
      if id.Some? && id.value in s.pending {
        SettleKeeps(s, id.value, Resolved(s.pending[id.value], responses[0]));
      }
      DeliverAllKeeps(Deliver(s, responses[0]), responses[1..]);
    }
  }

  lemma SendKeeps(f: Framer<Head>, s: State, call: Call, skipped: nat)
    requires Invariant(s) && s.socket == Live
    ensures Invariant(Next(f, s, Send(call, skipped))) && Keeps(s, Next(f, s, Send(call, skipped)))
  {
    var n := s.counter + skipped + 1;
    var t := Issue(s, n, call, Encode(RequestFor(call, RequestId(n))));
    assert Next(f, s, Send(call, skipped)) == t;
    IssueKeeps(s, n, call, Encode(RequestFor(call, RequestId(n))));
  }

  lemma IssueKeeps(s: State, n: nat, call: Call, encoded: Parse<Bytes>)
    requires Invariant(s) && s.socket == Live && n > s.counter
    ensures Invariant(Issue(s, n, call, encoded)) && Keeps(s, Issue(s, n, call, encoded))
  {
    if encoded.Ok? { RegisterKeeps(s, n, call, encoded.value); } else { CounterKeeps(s, n); }
  }

  lemma CounterKeeps(s: State, n: nat)
    requires Invariant(s) && n > s.counter
    ensures Invariant(s.(counter := n)) && Keeps(s, s.(counter := n))
  {}

  lemma RegisterKeeps(s: State, n: nat, call: Call, request: Bytes)
    requires Invariant(s) && s.socket == Live && n > s.counter
    ensures Invariant(Register(s, n, call, request)) && Keeps(s, Register(s, n, call, request))
  {
    assert RequestId(n) !in s.issued;
    forall k | k > n ensures RequestId(k) != RequestId(n) { RequestIdsDiffer(k, n); }
  }

  lemma ReceiveKeeps(f: Framer<Head>, s: State, chunk: Bytes)
    requires Invariant(s) && s.socket == Live
    ensures Invariant(Next(f, s, Receive(chunk))) && Keeps(s, Next(f, s, Receive(chunk)))
  {
    var now := Decode(f, s.history.standing.rest + chunk);
    var mid := DeliverAll(s, now.messages);
    DeliverAllKeeps(s, now.messages);
    if now.standing.Stopped? { SettleAllKeeps(mid, FramingFailed(now.standing.reason)); }
  }

  lemma StepKeeps(f: Framer<Head>, s: State, step: Step)
    requires Invariant(s) && Enabled(s, step)
    ensures Invariant(Next(f, s, step)) && Keeps(s, Next(f, s, step))
  {
    match step
    case Send(call, skipped) => SendKeeps(f, s, call, skipped);
    case TimerFires(id) => SettleKeeps(s, id, TimedOut);
    case Receive(chunk) => ReceiveKeeps(f, s, chunk);
    case Drop =>
    case CloseEvent => SettleAllKeeps(s, ConnectionClosed);
  }

  // ---------------------------------------------------------------- over all runs

  /** Each id settles at most once in any run: what is settled after a prefix stays as it is. */
  lemma {:induction false} RunKeeps(f: Framer<Head>, s: State, steps: seq<Step>)
    requires Invariant(s)
    ensures Invariant(Run(f, s, steps)) && Keeps(s, Run(f, s, steps))
    decreases |steps|
  {
    if steps != [] {
      var next := if Enabled(s, steps[0]) then Next(f, s, steps[0]) else s;
      if Enabled(s, steps[0]) { StepKeeps(f, s, steps[0]); }
      RunKeeps(f, next, steps[1..]);
    }
  }

  lemma EveryRun(f: Framer<Head>, steps: seq<Step>)
    ensures Invariant(Run(f, START, steps))
  {
    RunKeeps(f, START, steps);
  }

  /** A response bearing no id, or one that is not pending any more, changes nothing. */
  lemma LateResponseIgnored(f: Framer<Head>, steps: seq<Step>, response: Framed<Head>)
    requires var s, id := Run(f, START, steps), GetHeader(response.head.headers, REQUEST_ID);
             id.None? || id.value in s.settled || id.value !in s.issued
    ensures Deliver(Run(f, START, steps), response) == Run(f, START, steps)
  {
    EveryRun(f, steps);
  }

  /** The close event leaves no caller waiting. */
  lemma CloseSettlesAll(f: Framer<Head>, steps: seq<Step>)
    requires Enabled(Run(f, START, steps), CloseEvent)
    ensures var after := Next(f, Run(f, START, steps), CloseEvent);
            && after.pending == map[] && after.timers == {} && after.settled.Keys == after.issued.Keys
            && after.socket == Gone && after.history == Framing.End(Run(f, START, steps).history)
  {
    EveryRun(f, steps);
    StepKeeps(f, Run(f, START, steps), CloseEvent);
  }

  // ---------------------------------------------------------------- what each step settles

  function IdOf(response: Framed<Head>): Option<Bytes> { GetHeader(response.head.headers, REQUEST_ID) }

  /** The first of these responses that bears the id. */
  function FirstFor(responses: seq<Framed<Head>>, id: Bytes): (r: Option<Framed<Head>>)
    ensures r == None ==> forall k | 0 <= k < |responses| :: IdOf(responses[k]) != Some(id)
    ensures r.Some? ==> exists k :: FirstAt(responses, id, r.value, k)
  {
    if responses == [] then None
    else if IdOf(responses[0]) == Some(id) then
      assert FirstAt(responses, id, responses[0], 0);
      Some(responses[0])
    else
      var r := FirstFor(responses[1..], id);
      assert r.Some? ==> exists k :: FirstAt(responses, id, r.value, k) by {
        if r.Some? {
          var k :| FirstAt(responses[1..], id, r.value, k);
          FirstFurther(responses, id, r.value, k);
        }
      }
      r
  }

  ghost predicate FirstAt(responses: seq<Framed<Head>>, id: Bytes, r: Framed<Head>, k: nat) {
    && k < |responses| && responses[k] == r && IdOf(r) == Some(id)
    && forall j | 0 <= j < k :: IdOf(responses[j]) != Some(id)
  }

  lemma FirstFurther(responses: seq<Framed<Head>>, id: Bytes, r: Framed<Head>, k: nat)
    requires responses != [] && IdOf(responses[0]) != Some(id) && FirstAt(responses[1..], id, r, k)
    ensures FirstAt(responses, id, r, k + 1)
  {
    forall j | 0 <= j < k + 1 ensures IdOf(responses[j]) != Some(id) {
      if j > 0 { assert responses[j] == responses[1..][j - 1]; }
    }
  }

  /** How a pending request ends in this step, if it does. */
  function Fate(f: Framer<Head>, s: State, step: Step, id: Bytes): Option<Settlement>
    requires id in s.issued
  {
    match step
    case Receive(chunk) =>
      var now := Completed(f, s.history, chunk);
      var response := FirstFor(now.messages, id);
      if response.Some? then Some(Resolved(s.issued[id], response.value))
      else if now.standing.Stopped? then Some(FramingFailed(now.standing.reason))
      else None
    case TimerFires(fired) => if fired == id then Some(TimedOut) else None
    case CloseEvent => Some(ConnectionClosed)
    case _ => None
  }

  lemma {:induction false} DeliverAllSettles(s: State, responses: seq<Framed<Head>>, id: Bytes)
    requires s.timers == s.pending.Keys && s.pending.Keys !! s.settled.Keys
    ensures var t, r := DeliverAll(s, responses), FirstFor(responses, id);
            && t.timers == t.pending.Keys
            && (id in s.pending ==>
                  if r.Some? then
                    id !in t.pending && id in t.settled && t.settled[id] == Resolved(s.pending[id], r.value)
                  else id in t.pending && t.pending[id] == s.pending[id] && id !in t.settled)
            && (id in s.settled ==> id !in t.pending && id in t.settled && t.settled[id] == s.settled[id])
    decreases |responses|
  {
    if responses != [] { DeliverAllSettles(Deliver(s, responses[0]), responses[1..], id); }
  }

  lemma ReceiveSettles(f: Framer<Head>, s: State, chunk: Bytes, id: Bytes)
    requires Invariant(s) && s.socket == Live && id in s.pending
    ensures Ends(Next(f, s, Receive(chunk)), id, Fate(f, s, Receive(chunk), id))
  {
    var now := Completed(f, s.history, chunk);
    DeliverAllSettles(s, now.messages, id);
    AfterDelivery(f, s, chunk);
    if now.standing.Stopped? { AllEnd(DeliverAll(s, now.messages), FramingFailed(now.standing.reason), id); }
  }

  /** The table and timers after a chunk. */
  lemma AfterDelivery(f: Framer<Head>, s: State, chunk: Bytes)
    requires Invariant(s) && s.socket == Live
    ensures var now, t := Completed(f, s.history, chunk), Next(f, s, Receive(chunk));
            var mid := DeliverAll(s, now.messages);
            var end := if now.standing.Stopped? then SettleAll(mid, FramingFailed(now.standing.reason)) else mid;
            t.pending == end.pending && t.timers == end.timers && t.settled == end.settled
  {}

  lemma AllEnd(s: State, how: Settlement, id: Bytes)
    requires s.timers == s.pending.Keys
    ensures var t := SettleAll(s, how);
            && (id in s.pending ==> Ends(t, id, Some(how)))
            && (id !in s.pending && id in s.settled ==> Ends(t, id, Some(s.settled[id])))
  {}

  /** The request has ended this way and its timer is cleared, or it is still waiting with its timer armed. */
  predicate Ends(t: State, id: Bytes, how: Option<Settlement>) {
    if how.Some? then id !in t.pending && id !in t.timers && id in t.settled && t.settled[id] == how.value
    else id in t.pending && id in t.timers && id !in t.settled
  }

  /**
   In every run each step ends just the pending requests it must, each in its own way: a response
   bearing the id ends it with that response, the first if there are several, also when a fatal
   failure ends the chunk; the failure ends the others; the timer its own; the close event all.
   */
  lemma EveryStepSettles(f: Framer<Head>, steps: seq<Step>, step: Step, id: Bytes)
    requires var s := Run(f, START, steps); Enabled(s, step) && id in s.pending
    ensures var s := Run(f, START, steps);
            && id in s.issued
            && Ends(Next(f, s, step), id, Fate(f, s, step, id))
  {
    EveryRun(f, steps);
    StepSettles(f, Run(f, START, steps), step, id);
  }

  lemma StepSettles(f: Framer<Head>, s: State, step: Step, id: Bytes)
    requires Invariant(s) && Enabled(s, step) && id in s.pending
    ensures Ends(Next(f, s, step), id, Fate(f, s, step, id))
  {
    match step
    case Send(call, skipped) => SendSettlesNone(f, s, call, skipped, id);
    case Receive(chunk) => ReceiveSettles(f, s, chunk, id);
    case _ =>
  }

  lemma SendSettlesNone(f: Framer<Head>, s: State, call: Call, skipped: nat, id: Bytes)
    requires Invariant(s) && s.socket == Live && id in s.pending
    ensures Ends(Next(f, s, Send(call, skipped)), id, None)
  {
    SendRegisters(f, s, call, skipped);
  }

  /** No caller can be left waiting: in every run the timer of each pending request can fire, and ends it. */
  lemma TimerCanFire(f: Framer<Head>, steps: seq<Step>, id: Bytes)
    requires id in Run(f, START, steps).pending
    ensures var s := Run(f, START, steps);
            Enabled(s, TimerFires(id)) && Ends(Next(f, s, TimerFires(id)), id, Some(TimedOut))
  {
    EveryRun(f, steps);
    StepSettles(f, Run(f, START, steps), TimerFires(id), id);
  }

  /** Sending registers just the encoded request, under an id never used before, with its timer. */
  lemma SendRegisters(f: Framer<Head>, s: State, call: Call, skipped: nat)
    requires Invariant(s) && s.socket == Live
    ensures var t, id := Next(f, s, Send(call, skipped)), RequestId(s.counter + skipped + 1);
            var encoded := Encode(RequestFor(call, id));
            && id !in s.issued && t.settled == s.settled && t.counter == s.counter + skipped + 1
            && (encoded.Err? ==> t.pending == s.pending && t.timers == s.timers && t.issued == s.issued)
            && (encoded.Ok? ==> && t.pending == s.pending[id := encoded.value]
                                && t.timers == s.timers + {id} && t.issued == s.issued[id := encoded.value])
  {
    var n := s.counter + skipped + 1;
    assert Next(f, s, Send(call, skipped)) == Issue(s, n, call, Encode(RequestFor(call, RequestId(n))));
    assert RequestId(n) !in s.issued;
  }

  // ---------------------------------------------------------------- requests bear their ids

  /** Every request registered is the encoding of its call under its id. */
  ghost predicate Written(s: State) {
    && s.calls.Keys == s.issued.Keys
    && forall id | id in s.issued :: EncodedAs(s.calls[id], id, s.issued[id])
  }

  predicate EncodedAs(call: Call, id: Bytes, request: Bytes) { Encode(RequestFor(call, id)) == Ok(request) }

  lemma {:induction false} DeliverAllWrites(s: State, responses: seq<Framed<Head>>)
    ensures DeliverAll(s, responses).issued == s.issued && DeliverAll(s, responses).calls == s.calls
    decreases |responses|
  {
    if responses != [] { DeliverAllWrites(Deliver(s, responses[0]), responses[1..]); }
  }

  lemma StepWrites(f: Framer<Head>, s: State, step: Step)
    requires Written(s) && Enabled(s, step)
    ensures Written(Next(f, s, step))
  {
    match step
    case Send(call, skipped) =>
      var n := s.counter + skipped + 1;
      var encoded := Encode(RequestFor(call, RequestId(n)));
      if encoded.Ok? { RegisterWrites(s, n, call, encoded.value); } else { WrittenFramed(s, s.(counter := n)); }
    case Receive(chunk) =>
      ReceiveFrame(f, s, chunk);
      WrittenFramed(s, Next(f, s, step));
    case _ => WrittenFramed(s, Next(f, s, step));
  }

  lemma RegisterWrites(s: State, n: nat, call: Call, request: Bytes)
    requires Written(s) && EncodedAs(call, RequestId(n), request)
    ensures Written(Register(s, n, call, request))
  {}

  lemma WrittenFramed(s: State, t: State)
    requires Written(s) && t.issued == s.issued && t.calls == s.calls
    ensures Written(t)
  {}

  lemma ReceiveFrame(f: Framer<Head>, s: State, chunk: Bytes)
    requires s.socket == Live
    ensures Next(f, s, Receive(chunk)).issued == s.issued && Next(f, s, Receive(chunk)).calls == s.calls
  {
    if s.history.standing.Waiting? {
      DeliverAllWrites(s, Decode(f, s.history.standing.rest + chunk).messages);
    }
  }

  lemma {:induction false} RunWrites(f: Framer<Head>, s: State, steps: seq<Step>)
    requires Written(s)
    ensures Written(Run(f, s, steps))
    decreases |steps|
  {
    if steps != [] {
      if Enabled(s, steps[0]) { StepWrites(f, s, steps[0]); }
      RunWrites(f, if Enabled(s, steps[0]) then Next(f, s, steps[0]) else s, steps[1..]);
    }
  }

  lemma CallIds(call: Call, id: Bytes)
    requires DistinctKeys(call.headers)
    ensures var ids := IdEntries(RequestFor(call, id).headers);
            if OtherSpelling(call.headers) then |ids| >= 2 else ids == [id]
  {
    FramingSpelling();
    AssignOwn(call.headers, Some(id));
    assert SESSION_ID != REQUEST_ID by { assert SESSION_ID[0] == 's' && REQUEST_ID[0] == 'r'; }
    if call.sessionId.Some? {
      AssignElsewhere(Assign(call.headers, "Request-ID", Some(id)), "Session-ID", call.sessionId);
    }
  }

  /**
   In any run each registered request is an encoding under its id, and carries exactly that one
   Request-ID if and only if the caller's headers do not name it in other letters.
   */
  lemma RequestBearsItsIdIff(f: Framer<Head>, steps: seq<Step>, id: Bytes)
    requires var s := Run(f, START, steps);
             id in s.issued && (id in s.calls ==> DistinctKeys(s.calls[id].headers))
    ensures var s := Run(f, START, steps);
            && id in s.calls
            && var m := RequestFor(s.calls[id], id);
            && Fields(m).Ok? && Encode(m) == Ok(s.issued[id])
            && (IdValues(Fields(m).value) == [id] <==> !OtherSpelling(s.calls[id].headers))
  {
    RunWrites(f, START, steps);
    var s := Run(f, START, steps);
    CallIds(s.calls[id], id);
    IdsOfMessage(RequestFor(s.calls[id], id));
  }

  /** A peer whose limits the request fits reads the call: operation, body, session id and each other header. */
  lemma CallIsRead(limits: Limits, call: Call, id: Bytes, entry: Entry)
    requires var m := RequestFor(call, id); Fields(m).Ok? && Fits(limits, Requests, m)
    requires entry.value.Some? && Lower(entry.name) != CONTENT_LENGTH
    requires || (entry in call.headers && entry.name != "Request-ID"
                 && (call.sessionId.Some? ==> entry.name != "Session-ID"))
             || (call.sessionId.Some? && entry == Entry("Session-ID", call.sessionId))
    ensures var d := Decode(SltpFramer(limits, Requests), Encode(RequestFor(call, id)).value);
            && |d.messages| == 1 && d.standing == Waiting([])
            && d.messages[0].head.start == RequestLine(call.operation)
            && d.messages[0].body == call.body
            && Field(CanonicalName(entry.name), Trim(entry.value.value)) in d.messages[0].head.headers
  {
    var m := RequestFor(call, id);
    CallEntry(call, id, entry);
    var i :| 0 <= i < |m.headers| && m.headers[i] == entry;
    ReadBack(limits, Requests, m, i);
  }

  lemma CallEntry(call: Call, id: Bytes, entry: Entry)
    requires || (entry in call.headers && entry.name != "Request-ID"
                 && (call.sessionId.Some? ==> entry.name != "Session-ID"))
             || (call.sessionId.Some? && entry == Entry("Session-ID", call.sessionId))
    ensures entry in RequestFor(call, id).headers
  {
    var own := Assign(call.headers, "Request-ID", Some(id));
    if entry in call.headers && entry.name != "Request-ID" { AssignKeeps(call.headers, "Request-ID", Some(id), entry); }
    if call.sessionId.Some? {
      AssignPuts(own, "Session-ID", call.sessionId);
      if entry in own && entry.name != "Session-ID" { AssignKeeps(own, "Session-ID", call.sessionId, entry); }
    }
  }

  /** Without a media type of the caller's a body is sent as JSON or plain text, as asked. */
  lemma CallMediaType(call: Call, id: Bytes)
    requires var m := RequestFor(call, id); Fields(m).Ok? && call.body != [] && !HasContentType(m.headers)
    ensures GetHeader(AllTrimmed(Fields(RequestFor(call, id)).value), CONTENT_TYPE)
            == Some(if call.json then JSON_TYPE else TEXT_TYPE)
  {
    MediaType(RequestFor(call, id));
  }

  /** A peer that decodes the request at all reads just the id it is pending under. */
  lemma PeerReadsTheId(limits: Limits, call: Call, n: nat)
    requires DistinctKeys(call.headers)
    requires var m := RequestFor(call, RequestId(n)); Fields(m).Ok? && Fits(limits, Requests, m)
    ensures var m := RequestFor(call, RequestId(n));
            && Decode(SltpFramer(limits, Requests), Encode(m).value) == Decoded([Reported(m)], Waiting([]))
            && Reported(m).head.start == RequestLine(call.operation) && Reported(m).body == call.body
            && GetHeader(Reported(m).head.headers, REQUEST_ID) == Some(RequestId(n))
  {
    var m := RequestFor(call, RequestId(n));
    RoundTripIff(limits, Requests, m);
    CallIds(call, RequestId(n));
    IdsOfMessage(m);
    SingleId(Fields(m).value, {});
    FirstId(Fields(m).value);
    var id, digits := RequestId(n), Decimal(n);
    assert id[0] == 'r' && id[|id| - 1] == digits[|digits| - 1] && IsDigit(digits[|digits| - 1]);
    TrimTight(id);
  }

  // ---------------------------------------------------------------- the client as an object

  lemma {:induction false} DeliverIgnoresHistory(s: State, responses: seq<Framed<Head>>, history: Decoded<Head>)
    ensures DeliverAll(s.(history := history), responses) == DeliverAll(s, responses).(history := history)
    decreases |responses|
  {
    if responses != [] {
      DeliverIgnoresHistory(Deliver(s, responses[0]), responses[1..], history);
      assert Deliver(s.(history := history), responses[0]) == Deliver(s, responses[0]).(history := history);
    }
  }

  /** A connected client: one socket, one decoder, the table of pending requests. */
  class SltpClient {
    const decoder: SltpDecoder
    var counter: nat
    var pending: map<Bytes, Bytes>
    var timers: set<Bytes>
    var socket: Socket
    ghost var issued: map<Bytes, Bytes>
    ghost var settled: map<Bytes, Settlement>
    ghost var calls: map<Bytes, Call>

    ghost predicate Valid()
      reads this, decoder
    {
      decoder.Valid() && decoder.kind == Responses && Invariant(View())
    }

    ghost function View(): State
      reads this, decoder
    {
      State(decoder.history, counter, pending, timers, issued, settled, calls, socket)
    }

    lemma Preserves(step: Step)
      requires Valid() && Enabled(View(), step)
      ensures Invariant(Next(decoder.F(), View(), step))
    {
      StepKeeps(decoder.F(), View(), step);
    }

    constructor (limits: Limits)
      ensures Valid() && View() == START && fresh(decoder)
    {
      decoder := new SltpDecoder(limits, Responses);
      counter, pending, timers, socket := 0, map[], {}, Live;
      issued, settled, calls := map[], map[], map[];
    }

    /** `send` up to the awaited write. */
    method Send(call: Call, skipped: nat) returns (failure: Option<SendFailure>)
      requires Valid()
      modifies this
      ensures Valid()
      ensures View() == if old(socket) != Live then old(View())
                        else Next(decoder.F(), old(View()), Step.Send(call, skipped))
      ensures failure == if old(socket) != Live then Some(NotConnected)
                         else if Encode(RequestFor(call, RequestId(counter))).Err? then Some(NotEncodable)
                         else None
    {
      if socket != Live {
        return Some(NotConnected);
      }
      Preserves(Step.Send(call, skipped));
      ghost var next := Next(decoder.F(), View(), Step.Send(call, skipped));
      counter := counter + skipped + 1;
      var encoded := EncodeMessage(RequestFor(call, RequestId(counter)));
      if encoded.Err? {
        assert View() == next;
        return Some(NotEncodable);
      }
      Enter(call, encoded.value);
      assert View() == next;
      return None;
    }

    method Enter(call: Call, request: Bytes)
      modifies `timers, `pending, `issued, `calls
      ensures View() == Register(old(View()), counter, call, request)
    {
      var id := RequestId(counter);
      timers := timers + {id};
      pending := pending[id := request];
      issued := issued[id := request];
      calls := calls[id := call];
    }

    method TimerFires(id: Bytes)
      requires Valid() && Enabled(View(), Step.TimerFires(id))
      modifies this
      ensures Valid() && View() == Next(decoder.F(), old(View()), Step.TimerFires(id))
    {
      Preserves(Step.TimerFires(id));
      ghost var next := Next(decoder.F(), View(), Step.TimerFires(id));
      timers := timers - {id};
      pending := pending - {id};
      settled := settled[id := TimedOut];
      assert View() == next;
    }

    method Receive(chunk: Bytes)
      requires Valid() && Enabled(View(), Step.Receive(chunk))
      modifies this, decoder
      ensures Valid() && View() == Next(decoder.F(), old(View()), Step.Receive(chunk))
    {
      ghost var before := View();
      Preserves(Step.Receive(chunk));
      ghost var now := Decode(decoder.F(), before.history.standing.rest + chunk);
      var events := decoder.Push(chunk);
      DeliverIgnoresHistory(before, now.messages, decoder.history);
      Act(events, now);
    }

    /** The loop over the events of one chunk. */
    method Act(events: seq<Event>, ghost now: Decoded<Head>)
      requires events == Events(now)
      modifies this
      ensures var after := DeliverAll(old(View()), now.messages);
              View() == if now.standing.Stopped?
                        then SettleAll(after, FramingFailed(now.standing.reason)).(socket := Destroyed)
                        else after
    {
      ghost var left := now;
      for k := 0 to |events|
        invariant events[k..] == Events(left) && left.standing == now.standing
        invariant DeliverAll(View(), left.messages) == DeliverAll(old(View()), now.messages)
      {
        NextEvent(events, k, left);
        if events[k].ErrorEvent? {
          FailAll(FramingFailed(events[k].reason));
          socket := Destroyed;
          return;
        }
        Correlate(events[k].message);
        left := left.(messages := left.messages[1..]);
      }
    }

    method Correlate(response: Framed<Head>)
      modifies this
      ensures View() == Deliver(old(View()), response)
    {
      var id := GetHeader(response.head.headers, REQUEST_ID);
      if id == None || id.value !in pending {
        return;
      }
      settled := settled[id.value := Resolved(pending[id.value], response)];
      pending := pending - {id.value};
      timers := timers - {id.value};
    }

    /** Empties the table first, then clears each timer and rejects each caller. */
    method FailAll(how: Settlement)
      modifies `pending, `timers, `settled
      ensures View() == SettleAll(old(View()), how)
    {
      var inFlight := pending.Keys;
      pending := map[];
      RejectEach(inFlight, how);
    }

    method RejectEach(inFlight: set<Bytes>, how: Settlement)
      modifies `timers, `settled
      ensures timers == old(timers) - inFlight
      ensures settled == old(settled) + map id | id in inFlight :: how
    {
      var left := inFlight;
      while left != {}
        invariant left <= inFlight
        invariant timers == old(timers) - (inFlight - left)
        invariant settled.Keys == old(settled).Keys + (inFlight - left)
        invariant forall id | id in settled ::
                    settled[id] == if id in inFlight - left then how else old(settled)[id]
        decreases |left|
      {
        var id :| id in left;
        left := left - {id};
        timers := timers - {id};
        settled := settled[id := how];
      }
    }

    method CloseEvent()
      requires Valid() && Enabled(View(), Step.CloseEvent)
      modifies this, decoder
      ensures Valid() && View() == Next(decoder.F(), old(View()), Step.CloseEvent)
    {
      Preserves(Step.CloseEvent);
      var truncated := decoder.End();
      FailAll(ConnectionClosed);
      socket := Gone;
    }
  }
}
