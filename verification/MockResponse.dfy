/** The response a mock endpoint gives to one request (packages/core/src/mock-endpoint.ts, lines 197-355). */
module MockResponse {
  import opened Octets
  import opened Reasons
  import opened Headers
  import opened HeaderParser
  import opened Framing
  import opened Encoder
  import opened Decoder
  import opened RoundTrip
  import opened Reencode
  import opened RequestIds
  import opened EncodedFields
  import opened Matching
  import opened MockEndpoint

  const SERVER_PRODUCT: Bytes := "SocketLens-TCP/0.1.2"

  /** What an error response says: status, reason code and the JSON text of its body. */
  datatype Problem = Problem(code: nat, phrase: Bytes, reason: Option<Bytes>, body: Bytes)

  /**
   What is decided when a task of the chain starts. For a request: the rules of that moment, the
   refusal of the validation if there is one, the time, and the body of an error response.
   */
  datatype Choice =
    | Answering(rules: seq<MockRule>, refusal: Option<Problem>, timestamp: Bytes, errorBody: Bytes)
    | Reporting(fault: Problem)

  /**
   What a task puts on the wire: a whole response in one or several writes, a response cut off by a
   rule that then destroys the socket, or nothing when even the error could not be encoded.
   */
  datatype Plan =
    | Whole(response: Bytes, fragment: Option<seq<nat>>)
    | CutShort(response: Bytes, after: nat)
    | Nothing

  // ---------------------------------------------------------------- building a response

  /** The rule's headers, overwritten by the endpoint's own. */
  function RuleHeaders(rule: MockRule, requestId: Option<Bytes>, timestamp: Bytes): seq<Entry> {
    var own := Assign(Entries(rule.response.headers), "Request-ID", requestId);
    Assign(Assign(Assign(own, "Matched-Rule-ID", Some(rule.id)), "Server", Some(SERVER_PRODUCT)),
           "Timestamp", Some(timestamp))
  }

  function RuleReply(rule: MockRule, requestId: Option<Bytes>, timestamp: Bytes): Outgoing {
    Outgoing(StatusLine(rule.response.statusCode, rule.response.statusPhrase),
             RuleHeaders(rule, requestId, timestamp), rule.response.body, false)
  }

  /** `writeError` */
  function ErrorReply(problem: Problem, requestId: Option<Bytes>, closing: bool): Outgoing {
    Outgoing(StatusLine(problem.code, problem.phrase),
             [Entry("Request-ID", requestId), Entry("Server", Some(SERVER_PRODUCT)), Entry("Reason", problem.reason),
              Entry("Connection", if closing then Some("close") else None)],
             problem.body, true)
  }

  function OwnId(message: Framed<Head>): Option<Bytes> { GetHeader(message.head.headers, REQUEST_ID) }

  function RequestOf(message: Framed<Head>): Request {
    Request(if message.head.start.RequestLine? then message.head.start.operation else [],
            message.head.headers, message.body)
  }

  /** The rule that answers, if any. */
  function Winner(lib: Library, rules: seq<MockRule>, message: Framed<Head>): Option<MockRule> {
    var ordered := OrderRules(rules);
    var n := FirstFiring(lib, RequestOf(message), ordered);
    if n < |ordered| then Some(ordered[n]) else None
  }

  /** A response and the rule it comes from; none for an error response. */
  datatype Reply = Reply(message: Outgoing, rule: Option<MockRule>)

  function NoMatch(body: Bytes): Problem { Problem(410, "NO MATCHING RULE", None, body) }

  function Unencodable(body: Bytes): Problem { Problem(500, "INTERNAL SERVER ERROR", None, body) }

  function ErrorTo(message: Framed<Head>, problem: Problem): Reply {
    Reply(ErrorReply(problem, OwnId(message), false), None)
  }

  function ReplyTo(lib: Library, message: Framed<Head>, choice: Choice): Reply
    requires choice.Answering?
  {
    if choice.refusal.Some? then ErrorTo(message, choice.refusal.value)
    else
      match Winner(lib, choice.rules, message)
      case None => ErrorTo(message, NoMatch(choice.errorBody))
      case Some(rule) =>
        var reply := RuleReply(rule, OwnId(message), choice.timestamp);
        if Encode(reply).Ok? then Reply(reply, Some(rule))
        else ErrorTo(message, Unencodable(choice.errorBody))
  }

  /** How a reply goes onto the wire. */
  function PlanOf(reply: Reply): Plan {
    match Encode(reply.message)
    case Err(_) => Nothing
    case Ok(raw) =>
      if reply.rule == None then Whole(raw, None)
      else
        var response := reply.rule.value.response;
        match response.disconnectAfterBytes
        case Some(after) => CutShort(raw, after)
        case None => Whole(raw, if response.fragment.Some? then Some(response.fragment.value.sizes) else None)
  }

  function FaultReply(choice: Choice): Reply
    requires choice.Reporting?
  {
    Reply(ErrorReply(choice.fault, None, true), None)
  }

  // ---------------------------------------------------------------- as written

  /** `respond`, up to the first write. */
  method Respond(lib: Library, message: Framed<Head>, choice: Choice) returns (plan: Plan)
    requires choice.Answering?
    ensures plan == PlanOf(ReplyTo(lib, message, choice))
  {
    var requestId := GetHeader(message.head.headers, REQUEST_ID);
    if choice.refusal.Some? {
      plan := WriteError(choice.refusal.value, requestId, false);
      return;
    }
    var outcome := MatchRule(lib, RequestOf(message), choice.rules);
    if outcome.rule == None {
      plan := WriteError(NoMatch(choice.errorBody), requestId, false);
      return;
    }
    var rule := outcome.rule.value;
    var encoded := EncodeMessage(RuleReply(rule, requestId, choice.timestamp));
    if encoded.Err? {
      plan := WriteError(Unencodable(choice.errorBody), requestId, false);
      return;
    }
    if rule.response.disconnectAfterBytes.Some? {
      return CutShort(encoded.value, rule.response.disconnectAfterBytes.value);
    }
    var fragment := rule.response.fragment;
    return Whole(encoded.value, if fragment.Some? then Some(fragment.value.sizes) else None);
  }

  method WriteError(problem: Problem, requestId: Option<Bytes>, closing: bool) returns (plan: Plan)
    ensures plan == PlanOf(Reply(ErrorReply(problem, requestId, closing), None))
  {
    var encoded := EncodeMessage(ErrorReply(problem, requestId, closing));
    return if encoded.Ok? then Whole(encoded.value, None) else Nothing;
  }

  // ---------------------------------------------------------------- whose response it is

  /** The headers of a rule are a record, and none of them names Request-ID in other letters. */
  predicate PlainRule(rule: MockRule) {
    DistinctKeys(Entries(rule.response.headers)) && !OtherSpelling(Entries(rule.response.headers))
  }

  /**
   A response built from a rule bears exactly the Request-ID of its request if and only if no header
   of the rule names Request-ID in other letters.
   */
  lemma OwnIdIff(rule: MockRule, id: Option<Bytes>, timestamp: Bytes)
    requires DistinctKeys(Entries(rule.response.headers)) && Fields(RuleReply(rule, id, timestamp)).Ok?
    ensures IdValues(Fields(RuleReply(rule, id, timestamp)).value) == Just(id) <==> PlainRule(rule)
  {
    RuleIds(rule, id, timestamp);
    AssignOwn(Entries(rule.response.headers), id);
    IdsOfMessage(RuleReply(rule, id, timestamp));
  }

  lemma RuleIds(rule: MockRule, id: Option<Bytes>, timestamp: Bytes)
    ensures IdEntries(RuleHeaders(rule, id, timestamp))
            == IdEntries(Assign(Entries(rule.response.headers), "Request-ID", id))
  {
    var own := Assign(Entries(rule.response.headers), "Request-ID", id);
    var ruled := Assign(own, "Matched-Rule-ID", Some(rule.id));
    var served := Assign(ruled, "Server", Some(SERVER_PRODUCT));
    assert |"Matched-Rule-ID"| == 15 && |"Server"| == 6 && |"Timestamp"| == 9 && |REQUEST_ID| == 10;
    AssignElsewhere(own, "Matched-Rule-ID", Some(rule.id));
    AssignElsewhere(ruled, "Server", Some(SERVER_PRODUCT));
    AssignElsewhere(served, "Timestamp", Some(timestamp));
  }

  /** With such a header the response to any request with an id is refused by every decoder. */
  lemma DoubledIdRefused(limits: Limits, kind: Kind, rule: MockRule, id: Bytes, timestamp: Bytes)
    requires DistinctKeys(Entries(rule.response.headers)) && !PlainRule(rule)
    requires Fields(RuleReply(rule, Some(id), timestamp)).Ok?
    ensures var d := Decode(SltpFramer(limits, kind), Encode(RuleReply(rule, Some(id), timestamp)).value);
            d.messages == [] && d.standing.Stopped?
  {
    RuleIds(rule, Some(id), timestamp);
    AssignOwn(Entries(rule.response.headers), Some(id));
    TwoIdsRefused(limits, kind, RuleReply(rule, Some(id), timestamp));
  }

  /** An error response always bears the Request-ID of its request. */
  lemma ErrorBearsId(problem: Problem, id: Option<Bytes>, closing: bool)
    requires Fields(ErrorReply(problem, id, closing)).Ok?
    ensures IdValues(Fields(ErrorReply(problem, id, closing)).value) == Just(id)
  {
    FramingSpelling();
    var entries := ErrorReply(problem, id, closing).headers;
    assert |"Server"| == 6 && |"Reason"| == 6 && |REQUEST_ID| == 10;
    assert Lower("Connection")[0] == 'c' && REQUEST_ID[0] == 'r';
    assert entries[1..][1..][1..] == [entries[3]] && [entries[3]][1..] == [];
    assert IdEntries([entries[3]]) == [];
    assert IdEntries(entries[1..][1..]) == [];
    assert IdEntries(entries[1..]) == [];
    IdsOfMessage(ErrorReply(problem, id, closing));
  }

  /** Rules whose headers leave Request-ID alone, or name it as registered. */
  ghost predicate PlainRules(rules: seq<MockRule>) {
    forall rule | rule in rules :: PlainRule(rule)
  }

  /** Whatever answers a request, rule or error, bears exactly the Request-ID of that request. */
  lemma ReplyBearsOwnId(lib: Library, message: Framed<Head>, choice: Choice)
    requires choice.Answering? && PlainRules(choice.rules)
    requires Fields(ReplyTo(lib, message, choice).message).Ok?
    ensures IdValues(Fields(ReplyTo(lib, message, choice).message).value) == Just(OwnId(message))
  {
    var reply := ReplyTo(lib, message, choice);
    if reply.rule.Some? {
      WinnerIsARule(lib, choice.rules, message);
      OwnIdIff(reply.rule.value, OwnId(message), choice.timestamp);
    } else if choice.refusal.Some? {
      ErrorToBearsId(message, choice.refusal.value);
    } else if Winner(lib, choice.rules, message) == None {
      ErrorToBearsId(message, NoMatch(choice.errorBody));
    } else {
      ErrorToBearsId(message, Unencodable(choice.errorBody));
    }
  }

  lemma ErrorToBearsId(message: Framed<Head>, problem: Problem)
    requires Fields(ErrorTo(message, problem).message).Ok?
    ensures IdValues(Fields(ErrorTo(message, problem).message).value) == Just(OwnId(message))
  {
    ErrorBearsId(problem, OwnId(message), false);
  }

  lemma WinnerIsARule(lib: Library, rules: seq<MockRule>, message: Framed<Head>)
    requires Winner(lib, rules, message).Some?
    ensures Winner(lib, rules, message).value in rules
  {
    SameMembers(OrderRules(rules), rules);
  }

  /** On a deterministic rule set the answering rule is the best that fires; an error only if none does. */
  lemma BestRuleAnswers(lib: Library, message: Framed<Head>, choice: Choice)
    requires choice.Answering? && choice.refusal == None && DistinctSequences(choice.rules)
    ensures var reply, request := ReplyTo(lib, message, choice), RequestOf(message);
            match reply.rule
            case Some(rule) =>
              && rule in choice.rules && Fires(lib, request, rule)
              && forall other | other in choice.rules && Fires(lib, request, other) ::
                   other == rule || Before(rule, other)
            case None =>
              (reply.message.start == StatusLine(410, "NO MATCHING RULE")
               <==> forall rule | rule in choice.rules :: !Fires(lib, request, rule))
  {
    WinnerIsBest(lib, RequestOf(message), choice.rules);
  }

  // ---------------------------------------------------------------- what the response says

  const OWN_NAMES: set<Bytes> := {"Request-ID", "Matched-Rule-ID", "Server", "Timestamp"}

  /** The endpoint's own headers are there, and so is each of the rule's that they do not overwrite. */
  lemma RuleHeadersHold(rule: MockRule, id: Option<Bytes>, timestamp: Bytes, entry: Entry)
    requires || (entry in Entries(rule.response.headers) && entry.name !in OWN_NAMES)
             || entry in [Entry("Request-ID", id), Entry("Matched-Rule-ID", Some(rule.id)),
                          Entry("Server", Some(SERVER_PRODUCT)), Entry("Timestamp", Some(timestamp))]
    ensures entry in RuleHeaders(rule, id, timestamp)
  {
    var base := Entries(rule.response.headers);
    var own := Assign(base, "Request-ID", id);
    var ruled := Assign(own, "Matched-Rule-ID", Some(rule.id));
    var served := Assign(ruled, "Server", Some(SERVER_PRODUCT));
    OwnNamesDiffer();
    AssignPuts(base, "Request-ID", id);
    AssignPuts(own, "Matched-Rule-ID", Some(rule.id));
    AssignPuts(ruled, "Server", Some(SERVER_PRODUCT));
    AssignPuts(served, "Timestamp", Some(timestamp));
    if entry in base && entry.name != "Request-ID" { AssignKeeps(base, "Request-ID", id, entry); }
    if entry in own && entry.name != "Matched-Rule-ID" { AssignKeeps(own, "Matched-Rule-ID", Some(rule.id), entry); }
    if entry in ruled && entry.name != "Server" { AssignKeeps(ruled, "Server", Some(SERVER_PRODUCT), entry); }
    if entry in served && entry.name != "Timestamp" { AssignKeeps(served, "Timestamp", Some(timestamp), entry); }
  }

  lemma OwnNamesDiffer()
    ensures |"Request-ID"| == 10 && |"Matched-Rule-ID"| == 15 && |"Server"| == 6 && |"Timestamp"| == 9
  {}

  /**
   A peer whose limits the response fits reads the rule's status and body, and the field for each
   header of the rule the endpoint does not overwrite and for each of the endpoint's own.
   */
  lemma RuleReplyIsRead(
    limits: Limits, rule: MockRule, id: Option<Bytes>, timestamp: Bytes, name: Bytes, value: Bytes)
    requires var reply := RuleReply(rule, id, timestamp); Fields(reply).Ok? && Fits(limits, Responses, reply)
    requires Lower(name) != CONTENT_LENGTH
    requires || (Field(name, value) in rule.response.headers && name !in OWN_NAMES)
             || (name == "Request-ID" && id == Some(value))
             || (name == "Matched-Rule-ID" && value == rule.id)
             || (name == "Server" && value == SERVER_PRODUCT)
             || (name == "Timestamp" && value == timestamp)
    ensures var d := Decode(SltpFramer(limits, Responses), Encode(RuleReply(rule, id, timestamp)).value);
            && |d.messages| == 1 && d.standing == Waiting([])
            && d.messages[0].head.start == StatusLine(rule.response.statusCode, rule.response.statusPhrase)
            && d.messages[0].body == rule.response.body
            && Field(CanonicalName(name), Trim(value)) in d.messages[0].head.headers
  {
    var reply, entry := RuleReply(rule, id, timestamp), Entry(name, Some(value));
    if Field(name, value) in rule.response.headers { EntryOfField(rule.response.headers, Field(name, value)); }
    RuleHeadersHold(rule, id, timestamp, entry);
    var i :| 0 <= i < |reply.headers| && reply.headers[i] == entry;
    ReadBack(limits, Responses, reply, i);
  }

  /** A body goes out as plain text unless the rule names a media type, an error as JSON. */
  lemma MediaTypes(rule: MockRule, problem: Problem, id: Option<Bytes>, timestamp: Bytes, closing: bool)
    ensures var m := RuleReply(rule, id, timestamp);
            Fields(m).Ok? && m.body != [] && !HasContentType(m.headers) ==>
              GetHeader(AllTrimmed(Fields(m).value), CONTENT_TYPE) == Some(TEXT_TYPE)
    ensures var m := ErrorReply(problem, id, closing);
            Fields(m).Ok? && m.body != [] ==> GetHeader(AllTrimmed(Fields(m).value), CONTENT_TYPE) == Some(JSON_TYPE)
  {
    var reply, error := RuleReply(rule, id, timestamp), ErrorReply(problem, id, closing);
    if Fields(reply).Ok? && !HasContentType(reply.headers) { MediaType(reply); }
    ErrorHasNoMedia(problem, id, closing);
    if Fields(error).Ok? { MediaType(error); }
  }

  lemma ErrorHasNoMedia(problem: Problem, id: Option<Bytes>, closing: bool)
    ensures !HasContentType(ErrorReply(problem, id, closing).headers)
  {
    FramingSpelling();
    assert |"Server"| == 6 && |"Reason"| == 6 && |"Connection"| == 10 && |"Request-ID"| == 10 && |CONTENT_TYPE| == 12;
  }

  lemma {:induction false} EntryOfField(headers: seq<Field>, f: Field)
    requires f in headers
    ensures Entry(f.name, Some(f.value)) in Entries(headers)
  {
    if f != headers[0] { EntryOfField(headers[1..], f); }
  }

  /** A peer reads the status and body of an error, its reason, and a close exactly when it is closing. */
  lemma ErrorReplyIsRead(limits: Limits, problem: Problem, id: Option<Bytes>, closing: bool)
    requires var reply := ErrorReply(problem, id, closing); Fields(reply).Ok? && Fits(limits, Responses, reply)
    ensures var d := Decode(SltpFramer(limits, Responses), Encode(ErrorReply(problem, id, closing)).value);
            && |d.messages| == 1 && d.standing == Waiting([])
            && d.messages[0].head.start == StatusLine(problem.code, problem.phrase)
            && d.messages[0].body == problem.body
            && var headers := d.messages[0].head.headers;
            && (problem.reason.Some? ==> Field(CanonicalName("Reason"), Trim(problem.reason.value)) in headers)
            && (closing <==> exists f :: f in headers && Lower(f.name) == CONNECTION)
            && (closing ==> Field(CanonicalName("Connection"), Trim("close")) in headers)
  {
    var reply := ErrorReply(problem, id, closing);
    EndpointLengths();
    ReadBack(limits, Responses, reply, 1);
    if problem.reason.Some? { ReadBack(limits, Responses, reply, 2); }
    RoundTripIff(limits, Responses, reply);
    if closing { ReadBack(limits, Responses, reply, 3); }
    CloseReadIff(problem, id, closing);
  }

  const CONNECTION: Bytes := "connection"

  lemma CloseReadIff(problem: Problem, id: Option<Bytes>, closing: bool)
    requires Fields(ErrorReply(problem, id, closing)).Ok?
    ensures var headers := Reported(ErrorReply(problem, id, closing)).head.headers;
            closing <==> exists f :: f in headers && Lower(f.name) == CONNECTION
  {
    if closing { CloseIsRead(problem, id); } else { NoCloseIsRead(problem, id); }
  }

  lemma CloseIsRead(problem: Problem, id: Option<Bytes>)
    requires Fields(ErrorReply(problem, id, true)).Ok?
    ensures exists f :: f in Reported(ErrorReply(problem, id, true)).head.headers && Lower(f.name) == CONNECTION
  {
    EndpointLengths();
    assert Lower("Connection") == CONNECTION;
    EntryIsRead(ErrorReply(problem, id, true), 3);
  }

  lemma NoCloseIsRead(problem: Problem, id: Option<Bytes>)
    requires Fields(ErrorReply(problem, id, false)).Ok?
    ensures forall f | f in Reported(ErrorReply(problem, id, false)).head.headers :: Lower(f.name) != CONNECTION
  {
    var reply := ErrorReply(problem, id, false);
    ConnectionDiffers();
    forall f | f in Reported(reply).head.headers ensures Lower(f.name) != CONNECTION {
      if Lower(f.name) == CONNECTION { NothingElseRead(reply, f); }
    }
  }

  lemma ConnectionDiffers()
    ensures CONNECTION != CONTENT_TYPE && CONNECTION != CONTENT_LENGTH
    ensures Lower("Request-ID") != CONNECTION && Lower("Server") != CONNECTION && Lower("Reason") != CONNECTION
  {
    FramingSpelling();
    assert |CONNECTION| == 10 && |CONTENT_TYPE| == 12 && |CONTENT_LENGTH| == 14;
    assert |"Server"| == 6 && |"Reason"| == 6 && REQUEST_ID[0] == 'r' && CONNECTION[0] == 'c';
  }

  /** The answer to a fatal failure says what failed and that the connection is closing. */
  lemma FaultIsRead(limits: Limits, choice: Choice)
    requires choice.Reporting? && Fields(FaultReply(choice).message).Ok?
    requires Fits(limits, Responses, FaultReply(choice).message)
    ensures var d := Decode(SltpFramer(limits, Responses), Encode(FaultReply(choice).message).value);
            && |d.messages| == 1
            && d.messages[0].head.start == StatusLine(choice.fault.code, choice.fault.phrase)
            && d.messages[0].body == choice.fault.body
            && Field(CanonicalName("Connection"), Trim("close")) in d.messages[0].head.headers
  {
    ErrorReplyIsRead(limits, choice.fault, None, true);
  }

  lemma EndpointLengths()
    ensures Lower("Server") != CONTENT_LENGTH && Lower("Reason") != CONTENT_LENGTH
    ensures Lower("Connection") != CONTENT_LENGTH
  {
    assert |"Server"| == 6 && |"Reason"| == 6 && |"Connection"| == 10 && |CONTENT_LENGTH| == 14;
  }

  /**
   How a request is answered: refused, by 410 when no enabled rule matches, else by the best rule
   that does, or by 500 when what that rule says cannot be encoded.
   */
  lemma HowAnswered(lib: Library, message: Framed<Head>, choice: Choice)
    requires choice.Answering? && message.head.start.RequestLine? && DistinctSequences(choice.rules)
    ensures var request := Request(message.head.start.operation, message.head.headers, message.body);
            var reply, id := ReplyTo(lib, message, choice), GetHeader(message.head.headers, REQUEST_ID);
            if choice.refusal.Some? then reply == Reply(ErrorReply(choice.refusal.value, id, false), None)
            else if forall rule | rule in choice.rules :: !Fires(lib, request, rule) then
              reply == Reply(ErrorReply(Problem(410, "NO MATCHING RULE", None, choice.errorBody), id, false), None)
            else exists rule ::
              && IsBest(lib, request, choice.rules, rule)
              && reply == if Encode(RuleReply(rule, id, choice.timestamp)).Ok?
                          then Reply(RuleReply(rule, id, choice.timestamp), Some(rule))
                          else Reply(ErrorReply(
                            Problem(500, "INTERNAL SERVER ERROR", None, choice.errorBody), id, false), None)
  {
    WinnerIsBest(lib, RequestOf(message), choice.rules);
    if choice.refusal == None && Winner(lib, choice.rules, message).Some? {
      assert IsBest(lib, RequestOf(message), choice.rules, Winner(lib, choice.rules, message).value);
    }
  }

  /** Fires, and no other that fires has a higher priority, or the same and came earlier. */
  ghost predicate IsBest(lib: Library, request: Request, rules: seq<MockRule>, rule: MockRule) {
    && rule in rules && Fires(lib, request, rule)
    && forall other | other in rules && Fires(lib, request, other) && other != rule ::
         other.priority < rule.priority || (other.priority == rule.priority && rule.sequence < other.sequence)
  }

  /** A rule's response goes out cut short, in its fragment sizes, or in one write, as the rule says. */
  lemma HowWritten(reply: Reply)
    requires reply.rule.Some? && Encode(reply.message).Ok?
    ensures var raw, response := Encode(reply.message).value, reply.rule.value.response;
            if response.disconnectAfterBytes.Some? then
              var n := response.disconnectAfterBytes.value;
              && PlanOf(reply).CutShort?
              && Concat(Chunks(PlanOf(reply))) == if n < |raw| then raw[..n] else raw
            else
              && !PlanOf(reply).CutShort?
              && Chunks(PlanOf(reply)) == if response.fragment.Some? then Split(raw, response.fragment.value.sizes)
                                          else [raw]
  {
    var raw, response := Encode(reply.message).value, reply.rule.value.response;
    if response.disconnectAfterBytes.Some? {
      var n := response.disconnectAfterBytes.value;
      var prefix := if n < |raw| then raw[..n] else raw;
      assert Concat([prefix]) == prefix;
    }
  }

  // ---------------------------------------------------------------- there is always a response

  predicate ValidProblem(problem: Problem) {
    && 100 <= problem.code <= 599 && ValidPhrase(problem.phrase)
    && (problem.reason.Some? ==> ValidValue(problem.reason.value))
  }

  lemma ErrorEncodes(problem: Problem, id: Option<Bytes>, closing: bool)
    requires ValidProblem(problem) && (id.Some? ==> ValidValue(id.value))
    ensures Encode(ErrorReply(problem, id, closing)).Ok?
  {
    var entries := ErrorReply(problem, id, closing).headers;
    EndpointNames();
    assert CallerFields(entries[1..][1..][1..][1..]) == Ok([]);
    assert CallerFields(entries[1..][1..][1..]).Ok?;
    assert CallerFields(entries[1..][1..]).Ok?;
    assert CallerFields(entries[1..]).Ok?;
    assert CallerFields(entries).Ok?;
  }

  lemma EndpointNames()
    ensures ValidName(CanonicalName("Request-ID")) && ValidName(CanonicalName("Server"))
    ensures ValidName(CanonicalName("Reason")) && ValidName(CanonicalName("Connection"))
    ensures ValidValue(SERVER_PRODUCT) && ValidValue("close")
  {
    StaysValid("Request-ID");
    StaysValid("Server");
    StaysValid("Reason");
    StaysValid("Connection");
  }

  lemma StaysValid(name: Bytes)
    requires ValidName(name)
    ensures ValidName(CanonicalName(name))
  {
    CanonicalKeepsField(name);
  }

  lemma {:induction false} IdIsValid(headers: seq<Field>)
    requires ValidFields(headers)
    ensures GetHeader(headers, REQUEST_ID).Some? ==> ValidValue(GetHeader(headers, REQUEST_ID).value)
  {
    if headers != [] {
      assert ValidField(headers[0]);
      IdIsValid(headers[1..]);
    }
  }

  lemma ErrorToEncodes(message: Framed<Head>, problem: Problem)
    requires ValidFields(message.head.headers) && ValidProblem(problem)
    ensures Encode(ErrorTo(message, problem).message).Ok?
  {
    IdIsValid(message.head.headers);
    ErrorEncodes(problem, OwnId(message), false);
  }

  lemma EndpointProblems(body: Bytes)
    ensures ValidProblem(NoMatch(body)) && ValidProblem(Unencodable(body))
  {
    assert ValidPhrase("NO MATCHING RULE") && ValidPhrase("INTERNAL SERVER ERROR");
  }

  /** A request the decoder accepted is never left without a response: errors can always be encoded. */
  lemma NeverSilent(lib: Library, message: Framed<Head>, choice: Choice)
    requires choice.Answering? && ValidFields(message.head.headers)
    requires choice.refusal.Some? ==> ValidProblem(choice.refusal.value)
    ensures Encode(ReplyTo(lib, message, choice).message).Ok?
  {
    if choice.refusal.Some? {
      ErrorToEncodes(message, choice.refusal.value);
    } else {
      EndpointProblems(choice.errorBody);
      ErrorToEncodes(message, NoMatch(choice.errorBody));
      ErrorToEncodes(message, Unencodable(choice.errorBody));
    }
  }

  /** Whatever was decoded has valid fields. */
  lemma {:induction false} DecodedValid(limits: Limits, kind: Kind, b: Bytes)
    ensures forall m <- Decode(SltpFramer(limits, kind), b).messages :: ValidFields(m.head.headers)
    decreases |b|
  {
    var t := Look(SltpFramer(limits, kind), b);
    if t.Take? {
      ParsedIsEncodable(limits, kind, b[..t.at]);
      DecodedValid(limits, kind, b[t.total..]);
    }
  }

  lemma {:induction false} FedValid(limits: Limits, kind: Kind, chunks: seq<Bytes>)
    ensures forall m <- FeedAll(SltpFramer(limits, kind), chunks).messages :: ValidFields(m.head.headers)
    decreases |chunks|
  {
    if chunks != [] {
      var f, init := SltpFramer(limits, kind), chunks[..|chunks| - 1];
      FedValid(limits, kind, init);
      if FeedAll(f, init).standing.Waiting? {
        DecodedValid(limits, kind, FeedAll(f, init).standing.rest + chunks[|chunks| - 1]);
      }
    }
  }

  // ---------------------------------------------------------------- writes

  function Chunks(plan: Plan): seq<Bytes> {
    match plan
    case Whole(response, fragment) => if fragment.Some? then Split(response, fragment.value) else [response]
    case CutShort(response, after) =>
      var prefix := if after < |response| then response[..after] else response;
      if prefix == [] then [] else [prefix]
    case Nothing => []
  }

  /** All octets of the response, written or not. */
  function Response(plan: Plan): Bytes { if plan == Nothing then [] else plan.response }

  lemma ChunksAreTheResponse(plan: Plan)
    ensures Concat(Chunks(plan)) <= Response(plan)
    ensures !plan.CutShort? ==> Concat(Chunks(plan)) == Response(plan)
  {
    match plan
    case Whole(response, fragment) =>
      if fragment.Some? { SplitConcat(response, fragment.value); } else { assert Concat([response]) == response; }
    case CutShort(response, after) =>
      var prefix := if after < |response| then response[..after] else response;
      assert Concat([prefix]) == prefix;
    case Nothing =>
  }
}
